/**
 The in-place range compressor of internal keys and its inverse (g_int_compress and
 g_int_decompress in contrib/intarray/_int_gist.c, internal_size in _int_tool.c).
 */
module IntRangeCompress {
  import opened IntRange

  const INT_MAX: int := 0x7fff_ffff
  const INT_MIN: int := -0x8000_0000
  const INT64_MAX: int := 0x7fff_ffff_ffff_ffff
  /** The sparseness limit, MAXNUMELTS with a gigabyte allocation limit and 8-byte datums. */
  const MAX_ELEMENTS: int := 67108863

  ghost predicate Int32s(xs: seq<int>) {
    forall i | 0 <= i < |xs| :: INT_MIN <= xs[i] <= INT_MAX
  }

  /** What g_int_compress leaves behind, or the error it raises. */
  datatype Compressed = Key(elems: seq<int>) | TooSparse

  /** What g_int_decompress gives: the expanded key, its error, or a step of the counting
      variable past the largest int. */
  datatype Expanded = Elements(elems: seq<int>) | TooBig | CounterOverflow

  // ----- merging runs, from the tail to the head -----

  /** The uncut gaps from i on join consecutive integers. */
  ghost predicate Tight(xs: seq<int>, cuts: set<nat>, i: nat) {
    forall k: nat | i <= k && k + 1 < |xs| && k !in cuts :: Gap(xs, k) == 1
  }

  /** The elements up to i wait at the front of the buffer; the ranges of the elements
      after i stand at its end, from 2 * (j + 1) on. */
  ghost predicate Split(buf: seq<int>, xs: seq<int>, cuts: set<nat>, i: int, j: int) {
    && -1 <= i <= j < |xs| && |buf| == 2 * |xs|
    && (forall k | 0 <= k <= i :: buf[k] == xs[k])
    && (if i + 1 < |xs| then buf[2 * (j + 1)..] == Ends(xs, cuts, i + 1) else j == i)
    && (forall k | k in cuts :: i < k && k + 1 < |xs|)
    && Tight(xs, cuts, i + 1)
  }

  /** The cuts after a range that ends at element e has been put in front. */
  ghost function CutAfter(xs: seq<int>, cuts: set<nat>, e: nat): set<nat> {
    if e + 1 < |xs| then cuts + {e} else cuts
  }

  ghost function TailEnds(xs: seq<int>, cuts: set<nat>, i: nat): seq<int>
    requires i <= |xs|
  {
    if i < |xs| then Ends(xs, cuts, i) else []
  }

  /** The elements from i to e form one range in front of the finished ones. */
  ghost predicate RunAt(xs: seq<int>, cuts: set<nat>, e: nat, i: nat) {
    && i <= e < |xs|
    && Ends(xs, CutAfter(xs, cuts, e), i) == [xs[i], xs[e]] + TailEnds(xs, cuts, e + 1)
    && Tight(xs, CutAfter(xs, cuts, e), i)
  }

  /** A new range of one element. */
  lemma {:induction false} RunStarts(xs: seq<int>, cuts: set<nat>, e: nat)
    requires e < |xs| && (forall k | k in cuts :: e < k && k + 1 < |xs|) && Tight(xs, cuts, e + 1)
    ensures RunAt(xs, cuts, e, e)
  {
    if e + 1 < |xs| {
      EndsDepend(xs, cuts, cuts + {e}, e + 1);
    }
  }

  lemma {:induction false} RunGrows(xs: seq<int>, cuts: set<nat>, e: nat, i: nat)
    requires RunAt(xs, cuts, e, i) && i > 0 && xs[i - 1] == xs[i] - 1
    requires forall k | k in cuts :: e < k && k + 1 < |xs|
    ensures RunAt(xs, cuts, e, i - 1)
  {
    hide Ends, TailEnds, Tight;
    var after := CutAfter(xs, cuts, e);
    var tail := TailEnds(xs, cuts, e + 1);
    EndsUnfold(xs, after, i - 1);
    assert Ends(xs, after, i - 1) == ([xs[i], xs[e]] + tail)[0 := xs[i - 1]] == [xs[i - 1], xs[e]] + tail;
    TightGrows(xs, after, i);
  }

  lemma {:induction false} TightGrows(xs: seq<int>, cuts: set<nat>, i: nat)
    requires 0 < i < |xs| && Tight(xs, cuts, i) && xs[i - 1] == xs[i] - 1
    ensures Tight(xs, cuts, i - 1)
  {
  }

  /** The inner loop: pull the range's start down over consecutive values. */
  method PullDown(dr: array<int>, xs: seq<int>, ghost cuts: set<nat>, i0: nat, lenr0: nat)
    returns (i: nat, lenr: nat, start: int)
    requires i0 < |xs| && dr.Length == 2 * |xs|
    requires forall k | 0 <= k <= i0 :: dr[k] == xs[k]
    requires forall k | k in cuts :: i0 < k && k + 1 < |xs|
    requires Tight(xs, cuts, i0 + 1)
    ensures i <= i0 && i0 - i == lenr0 - lenr && start == xs[i] && RunAt(xs, cuts, i0, i)
    ensures i == 0 || lenr == 0 || xs[i - 1] != xs[i] - 1
  {
    hide Tight, RunAt;
    i, lenr, start := i0, lenr0, dr[i0];
    RunStarts(xs, cuts, i0);
    while i > 0 && lenr > 0 && dr[i - 1] == start - 1
      invariant i <= i0 && i0 - i == lenr0 - lenr && start == xs[i]
      invariant RunAt(xs, cuts, i0, i)
    {
      RunGrows(xs, cuts, i0, i);
      start, i, lenr := start - 1, i - 1, lenr - 1;
    }
  }

  /** Putting a range in front of the finished ones keeps the split. */
  lemma {:induction false} SplitStep(was: seq<int>, buf: seq<int>, xs: seq<int>, cuts: set<nat>, e: nat, j: nat, i: nat)
    requires Split(was, xs, cuts, e, j) && i <= e
    requires buf == was[2 * j := xs[i]][2 * j + 1 := xs[e]]
    requires RunAt(xs, cuts, e, i)
    ensures Split(buf, xs, CutAfter(xs, cuts, e), i - 1, j - 1)
  {
    hide Ends;
    assert buf[2 * (j + 1)..] == was[2 * (j + 1)..];
    assert was[2 * (j + 1)..] == TailEnds(xs, cuts, e + 1);
    assert buf[2 * j..] == [xs[i], xs[e]] + buf[2 * (j + 1)..];
  }

  /** Before the first loop every element waits at the front. */
  lemma {:induction false} SplitStarts(buf: seq<int>, xs: seq<int>)
    requires |xs| > 0 && |buf| == 2 * |xs| && buf[..|xs|] == xs
    ensures Split(buf, xs, {}, |xs| - 1, |xs| - 1)
  {
    forall k | 0 <= k < |xs|
      ensures buf[k] == xs[k]
    {
      assert buf[..|xs|][k] == xs[k];
    }
  }

  /** One round: a run of consecutive values that ends at element e becomes a range. */
  method MergeRun(dr: array<int>, xs: seq<int>, ghost cuts0: set<nat>, e: nat, j: nat, lenr0: nat)
    returns (i: int, lenr: nat, ghost cuts: set<nat>)
    requires Split(dr[..], xs, cuts0, e, j)
    modifies dr
    ensures -1 <= i < e && e - 1 - i == lenr0 - lenr && Split(dr[..], xs, cuts, i, j - 1)
  {
    hide Ends, RunAt, Tight;
    ghost var was := dr[..];
    var end := dr[e];
    var start: int;
    i, lenr, start := PullDown(dr, xs, cuts0, e, lenr0);
    dr[2 * j] := start;
    dr[2 * j + 1] := end;
    SplitStep(was, dr[..], xs, cuts0, e, j, i);
    cuts := CutAfter(xs, cuts0, e);
    i := i - 1;
  }

  /** The first loop: runs of consecutive values become ranges at the end of the buffer.
      Each value merged away uses up one of the `lenr` merges that may be made. */
  method MergeRuns(dr: array<int>, xs: seq<int>, ranges: nat) returns (i: int, j: int, ghost cuts: set<nat>)
    requires Increasing(xs) && 1 <= ranges && 2 * ranges <= |xs|
    requires dr.Length == 2 * |xs| && dr[..|xs|] == xs
    modifies dr
    ensures Split(dr[..], xs, cuts, i, j) && j - i <= |xs| - ranges
    ensures i > 0 ==> j - i == |xs| - ranges
  {
    hide Increasing, Split;
    i, j := |xs| - 1, |xs| - 1;
    var lenr := |xs| - ranges;
    cuts := {};
    assert dr[..][..|xs|] == xs;
    SplitStarts(dr[..], xs);
    while i > 0 && lenr > 0
      invariant i <= j && Split(dr[..], xs, cuts, i, j)
      invariant lenr == |xs| - ranges - (j - i) && lenr >= 0
      decreases i
    {
      i, lenr, cuts := MergeRun(dr, xs, cuts, i, j, lenr);
      j := j - 1;
    }
  }

  /** The second loop: what is left at the front becomes trivial ranges. */
  method CopyRest(dr: array<int>, xs: seq<int>, i0: int, j0: int, ghost cuts0: set<nat>)
    returns (first: nat, ghost cuts: set<nat>)
    requires Increasing(xs) && |xs| > 0 && Split(dr[..], xs, cuts0, i0, j0)
    modifies dr
    ensures first == j0 - i0 && first < |xs| && dr[2 * first..] == Ends(xs, cuts, 0)
    ensures IsCuts(xs, cuts) && Tight(xs, cuts, 0)
  {
    hide Ends, Increasing, TailEnds, RunAt;
    var i, j := i0, j0;
    cuts := cuts0;
    while i >= 0
      invariant Split(dr[..], xs, cuts, i, j) && j - i == j0 - i0
      decreases i
    {
      ghost var was := dr[..];
      RunStarts(xs, cuts, i);
      dr[2 * j + 1] := dr[i];
      dr[2 * j] := dr[2 * j + 1];
      SplitStep(was, dr[..], xs, cuts, i, j, i);
      cuts := CutAfter(xs, cuts, i);
      i, j := i - 1, j - 1;
    }
    first := j + 1;
  }

  // ----- moving and merging -----

  /** A buffer after n elements have been moved towards the front. */
  ghost function Moved(buf: seq<int>, to: nat, from: nat, n: nat): (s: seq<int>)
    requires to <= from && from + n <= |buf|
    ensures |s| == |buf|
  {
    buf[..to] + buf[from..from + n] + buf[to + n..]
  }

  lemma {:induction false} MovedStep(buf: seq<int>, to: nat, from: nat, k: nat)
    requires to <= from && from + k < |buf|
    ensures Moved(buf, to, from, k)[from + k] == buf[from + k]
    ensures Moved(buf, to, from, k + 1) == Moved(buf, to, from, k)[to + k := buf[from + k]]
  {
  }

  /** memmove of n elements towards the front. */
  method MoveDown(dr: array<int>, to: nat, from: nat, n: nat)
    requires to <= from && from + n <= dr.Length
    modifies dr
    ensures dr[..] == Moved(old(dr[..]), to, from, n)
  {
    ghost var was := dr[..];
    assert Moved(was, to, from, 0) == was;
    hide Moved;
    var k := 0;
    while k < n
      invariant k <= n && dr[..] == Moved(was, to, from, k)
    {
      MovedStep(was, to, from, k);
      dr[to + k] := dr[from + k];
      k := k + 1;
    }
  }

  /** The first boundary with the smallest distance between neighbouring ranges. */
  method NarrowestGap(dr: array<int>, len: nat) returns (cand: nat)
    requires 4 <= len <= dr.Length && len % 2 == 0
    requires Int32s(dr[..len])
    ensures Narrowest(dr[..len], cand)
  {
    ghost var f := dr[..len];
    cand := 1;
    var min := INT64_MAX;
    var i := 2;
    while i < len
      invariant i % 2 == 0 && 2 <= i <= len
      invariant if i == 2 then min == INT64_MAX else 2 <= cand < i && cand % 2 == 0 && min == Distance(f, cand)
      invariant forall p | 2 <= p < i && p % 2 == 0 :: min <= Distance(f, p)
      invariant cand < i && forall p | 2 <= p < cand && p % 2 == 0 :: min < Distance(f, p)
    {
      assert INT_MIN <= f[i] <= INT_MAX && INT_MIN <= f[i - 1] <= INT_MAX;
      if min > dr[i] - dr[i - 1] {
        min := dr[i] - dr[i - 1];
        cand := i;
      }
      i := i + 2;
    }
  }

  /** A boundary with the smallest distance, and the first of those. */
  ghost predicate Narrowest(f: seq<int>, cand: nat) {
    && 2 <= cand < |f| && cand % 2 == 0
    && (forall p | 2 <= p < |f| && p % 2 == 0 :: Distance(f, cand) <= Distance(f, p))
    && (forall p | 2 <= p < cand && p % 2 == 0 :: Distance(f, cand) < Distance(f, p))
  }

  ghost function Distance(f: seq<int>, p: nat): int
    requires 1 <= p < |f|
  {
    f[p] - f[p - 1]
  }

  /** Closing a smallest gap keeps the cuts separated from the closed gaps. */
  lemma {:induction false} CloseNarrowest(xs: seq<int>, cuts: set<nat>, cand: nat) returns (cuts': set<nat>)
    requires Increasing(xs) && |xs| > 0 && IsCuts(xs, cuts) && Separated(xs, cuts)
    requires Narrowest(Ends(xs, cuts, 0), cand)
    ensures IsCuts(xs, cuts') && Separated(xs, cuts') && |cuts'| == |cuts| - 1
    ensures Ends(xs, cuts', 0) == Ends(xs, cuts, 0)[..cand - 1] + Ends(xs, cuts, 0)[cand + 1..]
  {
    hide Ends;
    var b := BoundaryIsCut(xs, cuts, 0, cand);
    cuts' := cuts - {b};
    forall i: nat, k: nat | i + 1 < |xs| && k + 1 < |xs| && i !in cuts' && k in cuts'
      ensures Gap(xs, i) <= Gap(xs, k)
    {
      if i == b {
        var p := CutIsBoundary(xs, cuts, 0, k);
        assert Distance(Ends(xs, cuts, 0), cand) <= Distance(Ends(xs, cuts, 0), p);
      }
    }
  }

  /** The last loop of the compressor. */
  method MergeNarrowest(dr: array<int>, len0: nat, ranges: nat, xs: seq<int>, ghost cuts0: set<nat>)
    returns (ghost cuts: set<nat>)
    requires Increasing(xs) && Int32s(xs) && |xs| > 0 && 1 <= ranges && 2 * ranges <= len0 <= dr.Length
    requires IsCuts(xs, cuts0) && Separated(xs, cuts0) && dr[..len0] == Ends(xs, cuts0, 0)
    modifies dr
    ensures dr[..2 * ranges] == Ends(xs, cuts, 0)
    ensures IsCuts(xs, cuts) && Separated(xs, cuts) && |cuts| + 1 == ranges
  {
    hide Ends, Increasing, Separated, Narrowest, Moved;
    var len := len0;
    cuts := cuts0;
    CutCount(xs, cuts);
    while len > ranges * 2
      invariant 2 * ranges <= len <= len0 && len == 2 * (|cuts| + 1)
      invariant dr[..len] == Ends(xs, cuts, 0)
      invariant IsCuts(xs, cuts) && Separated(xs, cuts)
    {
      ghost var before := dr[..];
      EndsInt32(xs, cuts);
      var cand := NarrowestGap(dr, len);
      cuts := CloseNarrowest(xs, cuts, cand);
      MoveDown(dr, cand - 1, cand + 1, len - cand - 1);
      len := len - 2;
      Closed(before, len + 2, cand);
    }
  }

  lemma {:induction false} Closed(buf: seq<int>, len: nat, cand: nat)
    requires 2 <= cand < len <= |buf|
    ensures Moved(buf, cand - 1, cand + 1, len - cand - 1)[..len - 2] == buf[..len][..cand - 1] + buf[..len][cand + 1..]
  {
  }

  lemma {:induction false} CutCount(xs: seq<int>, cuts: set<nat>)
    requires Increasing(xs) && |xs| > 0 && IsCuts(xs, cuts)
    ensures |Ends(xs, cuts, 0)| == 2 * (|cuts| + 1)
  {
    EndsShape(xs, cuts, 0);
    CutsFromZero(xs, cuts);
  }

  lemma {:induction false} EndsInt32(xs: seq<int>, cuts: set<nat>)
    requires Int32s(xs) && |xs| > 0
    ensures Int32s(Ends(xs, cuts, 0))
  {
    var f := Ends(xs, cuts, 0);
    forall p | 0 <= p < |f|
      ensures INT_MIN <= f[p] <= INT_MAX
    {
      EndsAreElements(xs, cuts, 0, p);
    }
  }

  // ----- sizes -----

  /** The element count of a compressed key; -1 when it does not fit an int. */
  method InternalSize(a: array<int>, len: nat) returns (size: int)
    requires len <= a.Length && Ranges(a[..len])
    ensures size == (if RangeSize(a[..len]) > INT_MAX then -1 else RangeSize(a[..len]))
  {
    size := 0;
    ghost var f := a[..len];
    var i := 0;
    while i < len
      invariant i % 2 == 0 && 0 <= i <= len
      invariant size == RangeSize(f) - RangeSize(f[i..])
    {
      assert RangeOk(f, i);
      assert f[i..][2..] == f[i + 2..];
      if i == 0 || a[i] != a[i - 1] {
        size := size + (a[i + 1] - a[i] + 1);
      }
      i := i + 2;
    }
    RangeSizeNonNegative(f);
    if size > INT_MAX || size < INT_MIN {
      size := -1;
    }
  }

  lemma {:induction false} RangesTail(f: seq<int>)
    requires Ranges(f) && |f| >= 2
    ensures Ranges(f[2..]) && f[0] <= f[1] && (|f| > 2 ==> f[1] < f[2])
  {
    assert RangeOk(f, 0);
    forall p | 0 <= p < |f| - 2 && p % 2 == 0
      ensures RangeOk(f[2..], p)
    {
      assert RangeOk(f, p + 2);
    }
    if |f| > 2 {
      assert RangeOk(f, 2);
    }
  }

  lemma {:induction false} RangeSizeNonNegative(f: seq<int>)
    requires Ranges(f)
    ensures RangeSize(f) >= 0
  {
    if f != [] {
      RangesTail(f);
      RangeSizeNonNegative(f[2..]);
    }
  }

  // ----- the compressor -----

  /** Intervals that together contain the array. */
  ghost predicate IsCover(xs: seq<int>, ivs: seq<Interval>) {
    forall x | x in xs :: x in Union(ivs)
  }

  /** Exactly `ranges` disjoint increasing ranges with ends from the array that contain the
      whole array, and no union of at most `ranges` intervals does so with fewer integers. */
  ghost predicate BestCover(xs: seq<int>, ranges: nat, f: seq<int>) {
    && |f| == 2 * ranges && Ranges(f)
    && (forall p | 0 <= p < |f| :: f[p] in xs)
    && (forall x | x in xs :: InRanges(f, x))
    && (forall ivs: seq<Interval> | |ivs| <= ranges && IsCover(xs, ivs) :: RangeSize(f) <= |Union(ivs)|)
  }

  lemma {:induction false} SeparatedIsBestCover(xs: seq<int>, cuts: set<nat>)
    requires Increasing(xs) && |xs| > 0 && IsCuts(xs, cuts) && Separated(xs, cuts)
    ensures Ranges(Ends(xs, cuts, 0)) && BestCover(xs, |cuts| + 1, Ends(xs, cuts, 0))
  {
    hide Ends, Union, RangeSize;
    var f := Ends(xs, cuts, 0);
    EndsShape(xs, cuts, 0);
    CutCount(xs, cuts);
    forall p | 0 <= p < |f|
      ensures f[p] in xs
    {
      EndsAreElements(xs, cuts, 0, p);
    }
    forall x | x in xs
      ensures InRanges(f, x)
    {
      var k :| 0 <= k < |xs| && xs[k] == x;
      EndsCover(xs, cuts, 0, k);
    }
    forall ivs: seq<Interval> | |ivs| <= |cuts| + 1 && IsCover(xs, ivs)
      ensures RangeSize(f) <= |Union(ivs)|
    {
      GreedyIsOptimal(xs, cuts, ivs);
    }
  }

  /** Consecutive-run merging only closes gaps of one, which no gap undercuts. */
  lemma {:induction false} TightIsSeparated(xs: seq<int>, cuts: set<nat>)
    requires Increasing(xs) && Tight(xs, cuts, 0)
    ensures Separated(xs, cuts)
  {
    forall i: nat, k: nat | i + 1 < |xs| && k + 1 < |xs| && i !in cuts && k in cuts
      ensures Gap(xs, i) <= Gap(xs, k)
    {
      assert xs[k] < xs[k + 1];
    }
  }

  /** All ranges of a key, in the buffer the compressor works in. */
  method BuildRanges(xs: seq<int>, ranges: nat) returns (dr: array<int>)
    requires Increasing(xs) && Int32s(xs) && 1 <= ranges && 2 * ranges <= |xs|
    ensures fresh(dr) && 2 * ranges <= dr.Length
    ensures Ranges(dr[..2 * ranges]) && BestCover(xs, ranges, dr[..2 * ranges])
  {
    hide Ends, Increasing, Separated, BestCover, Int32s, Tight, Split, Ranges, IsCuts;
    dr := new int[2 * |xs|](k => if 0 <= k < |xs| then xs[k] else 0);
    assert dr[..|xs|] == xs;
    var i, j, cuts := MergeRuns(dr, xs, ranges);
    var first;
    first, cuts := CopyRest(dr, xs, i, j, cuts);
    var len := 2 * (|xs| - first);
    if first > 0 {
      MoveDown(dr, 0, 2 * first, len);
    }
    assert dr[..len] == Ends(xs, cuts, 0);
    TightIsSeparated(xs, cuts);
    cuts := MergeNarrowest(dr, len, ranges, xs, cuts);
    SeparatedIsBestCover(xs, cuts);
  }

  /** g_int_compress on an internal key: short keys stay as they are, the others become
      the best cover unless even that is too sparse. */
  method Compress(xs: seq<int>, ranges: nat) returns (r: Compressed)
    requires Increasing(xs) && Int32s(xs) && 1 <= ranges
    ensures |xs| < 2 * ranges ==> r == Key(xs)
    ensures |xs| >= 2 * ranges ==>
              exists f :: BestCover(xs, ranges, f) && r == if RangeSize(f) > MAX_ELEMENTS then TooSparse else Key(f)
  {
    hide BestCover, Ranges, Increasing, Int32s, RangeSize;
    if |xs| == 0 {
      return Key(xs);
    }
    if |xs| < 2 * ranges {
      return Key(xs);
    }
    var dr := BuildRanges(xs, ranges);
    ghost var f := dr[..2 * ranges];
    RangeSizeNonNegative(f);
    var size := InternalSize(dr, 2 * ranges);
    assert BestCover(xs, ranges, f);
    r := if size < 0 || size > MAX_ELEMENTS then TooSparse else Key(dr[..2 * ranges]);
  }

  // ----- expanding -----

  /** The integers from lo to hi. */
  ghost function Run(lo: int, hi: int): (s: seq<int>)
    ensures |s| == (if lo <= hi then hi - lo + 1 else 0)
    ensures forall k | 0 <= k < |s| :: s[k] == lo + k
    decreases hi - lo + 1
  {
    if lo > hi then [] else Run(lo, hi - 1) + [hi]
  }

  /** The integers a list of ranges denotes, in order. */
  ghost function Expansion(f: seq<int>): (s: seq<int>)
    requires |f| % 2 == 0
  {
    if f == [] then [] else Run(f[0], f[1]) + Expansion(f[2..])
  }

  lemma {:induction false} ExpansionFacts(f: seq<int>)
    requires Ranges(f)
    ensures |Expansion(f)| == RangeSize(f)
    ensures Increasing(Expansion(f))
    ensures f != [] ==> Expansion(f) != [] && Expansion(f)[0] == f[0]
  {
    if f != [] {
      RangesTail(f);
      ExpansionFacts(f[2..]);
      IncreasingJoin(Run(f[0], f[1]), Expansion(f[2..]));
    }
  }

  lemma {:induction false} IncreasingJoin(a: seq<int>, b: seq<int>)
    requires Increasing(a) && Increasing(b) && (a != [] && b != [] ==> a[|a| - 1] < b[0])
    ensures Increasing(a + b)
  {
    forall i, j | 0 <= i < j < |a + b|
      ensures (a + b)[i] < (a + b)[j]
    {
      if i < |a| <= j {
        assert a[i] <= a[|a| - 1] < b[0] <= b[j - |a|];
      }
    }
  }

  lemma {:induction false} ExpansionMembers(f: seq<int>, x: int)
    requires Ranges(f)
    ensures x in Expansion(f) <==> InRanges(f, x)
  {
    if f != [] {
      RangesTail(f);
      ExpansionMembers(f[2..], x);
      assert Expansion(f) == Run(f[0], f[1]) + Expansion(f[2..]);
      hide Expansion, Ranges, InRanges;
      RunMembers(f[0], f[1], x);
      InRangesStep(f, x);
    }
  }

  lemma {:induction false} RunMembers(lo: int, hi: int, x: int)
    ensures x in Run(lo, hi) <==> lo <= x <= hi
  {
    if lo <= x <= hi {
      assert Run(lo, hi)[x - lo] == x;
    }
  }

  lemma {:induction false} InRangesStep(f: seq<int>, x: int)
    requires |f| >= 2
    ensures InRanges(f, x) <==> f[0] <= x <= f[1] || InRanges(f[2..], x)
  {
    if f[0] <= x <= f[1] {
      assert InRange(f, 0, x);
    }
    if InRanges(f[2..], x) {
      var p: nat :| InRange(f[2..], p, x);
      assert InRange(f, p + 2, x);
    }
    if InRanges(f, x) {
      var p: nat :| InRange(f, p, x);
      if p > 0 {
        assert InRange(f[2..], p - 2, x);
      }
    }
  }

  lemma {:induction false} RunExtends(lo: int, j: int)
    requires lo <= j
    ensures Run(lo, j) == Run(lo, j - 1) + [j]
  {
  }

  /** The inner loop of the expansion: one range, skipping a value just written. */
  method WriteRange(dr: array<int>, n0: nat, lo: int, hi: int, first: bool) returns (n: nat, overflow: bool)
    requires INT_MIN <= lo <= hi <= INT_MAX && n0 + (hi - lo + 1) <= dr.Length
    requires first || (n0 > 0 && dr[n0 - 1] < lo)
    modifies dr
    ensures overflow <==> hi == INT_MAX
    ensures !overflow ==> n == n0 + (hi - lo + 1) && dr[..n] == old(dr[..n0]) + Run(lo, hi)
  {
    n := n0;
    var j := lo;
    assert Run(lo, lo - 1) == [];
    hide Run;
    while j <= hi
      invariant lo <= j <= hi + 1 && n == n0 + (j - lo)
      invariant hi == INT_MAX ==> j <= hi
      invariant dr[..n] == old(dr[..n0]) + Run(lo, j - 1)
      invariant first || (n > 0 && dr[n - 1] < j)
    {
      if first || dr[n - 1] != j {
        ghost var before := dr[..n];
        dr[n] := j;
        n := n + 1;
        RunExtends(lo, j);
        assert dr[..n] == before + [j];
      }
      if j == INT_MAX {
        return n, true;
      }
      j := j + 1;
    }
    overflow := false;
  }

  lemma {:induction false} ExpansionStep(f: seq<int>, i: nat)
    requires Ranges(f) && i < |f| && i % 2 == 0
    ensures Ranges(f[..i]) && Ranges(f[..i + 2])
    ensures Expansion(f[..i + 2]) == Expansion(f[..i]) + Run(f[i], f[i + 1])
    ensures i > 0 ==> Expansion(f[..i]) != [] && Expansion(f[..i])[|Expansion(f[..i])| - 1] == f[i - 1]
    ensures |Expansion(f[..i + 2])| <= RangeSize(f)
    ensures f[i] <= f[i + 1] && (i > 0 ==> f[i - 1] < f[i])
  {
    hide Run, RangeSize;
    RangesPrefix(f, i);
    RangesPrefix(f, i + 2);
    assert RangeOk(f, i);
    if i == 0 {
      assert f[..2][2..] == [];
      assert Expansion(f[..2]) == Run(f[0], f[1]) + Expansion(f[..2][2..]);
    } else {
      RangesTail(f);
      ExpansionStep(f[2..], i - 2);
      assert f[2..][..i - 2] == f[..i][2..];
      assert f[2..][..i] == f[..i + 2][2..];
      if i == 2 {
        assert f[..2][2..] == [];
      }
    }
    RangeSizePrefix(f, i + 2);
    ExpansionFacts(f[..i + 2]);
  }

  lemma {:induction false} RangesPrefix(f: seq<int>, i: nat)
    requires Ranges(f) && i <= |f| && i % 2 == 0
    ensures Ranges(f[..i])
  {
    forall p | 0 <= p < i && p % 2 == 0
      ensures RangeOk(f[..i], p)
    {
      assert RangeOk(f, p);
    }
  }

  lemma {:induction false} RangeSizePrefix(f: seq<int>, i: nat)
    requires Ranges(f) && i <= |f| && i % 2 == 0
    ensures RangeSize(f[..i]) <= RangeSize(f)
  {
    if i == 0 {
      RangeSizeNonNegative(f);
    } else {
      RangesTail(f);
      RangeSizePrefix(f[2..], i - 2);
      assert f[2..][..i - 2] == f[..i][2..];
    }
  }

  /** g_int_decompress: keys of at least 2 * ranges elements are ranges and are written out
      in full, exactly internal_size elements of them. */
  method Decompress(key: seq<int>, ranges: nat) returns (r: Expanded)
    requires 1 <= ranges && Int32s(key) && (|key| >= 2 * ranges ==> Ranges(key))
    ensures |key| < 2 * ranges ==> r == Elements(key)
    ensures |key| >= 2 * ranges ==>
              r == if RangeSize(key) > MAX_ELEMENTS then TooBig
                   else if key[|key| - 1] == INT_MAX then CounterOverflow
                   else Elements(Expansion(key))
  {
    if |key| < 2 * ranges {
      return Elements(key);
    }
    var din := new int[|key|](k requires 0 <= k < |key| => key[k]);
    assert din[..|key|] == key;
    RangeSizeNonNegative(key);
    var size := InternalSize(din, |key|);
    if size < 0 || size > MAX_ELEMENTS {
      return TooBig;
    }
    var dr := new int[size];
    r := WriteAll(dr, key);
  }

  lemma {:induction false} LastIsLargest(f: seq<int>, p: nat)
    requires Ranges(f) && p < |f| && p % 2 == 1
    ensures f[p] <= f[|f| - 1]
    decreases |f| - p
  {
    if p + 1 < |f| {
      assert RangeOk(f, p + 1);
      LastIsLargest(f, p + 2);
    }
  }

  method WriteAll(dr: array<int>, key: seq<int>) returns (r: Expanded)
    requires Int32s(key) && Ranges(key) && |key| > 0 && dr.Length == RangeSize(key)
    modifies dr
    ensures r == if key[|key| - 1] == INT_MAX then CounterOverflow else Elements(Expansion(key))
  {
    EvenLength(key);
    assert Expansion(key[..0]) == [];
    hide RangeSize, Expansion, Ranges, Increasing, Int32s;
    var i, n := 0, 0;
    while i < |key|
      invariant 0 <= i <= |key| && i % 2 == 0 && 0 <= n <= dr.Length
      invariant dr[..n] == Expansion(key[..i])
      invariant i > 0 ==> key[i - 1] != INT_MAX
    {
      var overflow;
      n, overflow := WriteNext(dr, n, key, i);
      if overflow {
        return CounterOverflow;
      }
      i := i + 2;
    }
    AllWritten(dr[..n], key, i);
    r := Elements(dr[..n]);
  }

  lemma {:induction false} EvenLength(f: seq<int>)
    requires Ranges(f)
    ensures |f| % 2 == 0
  {
  }

  lemma {:induction false} AllWritten(out: seq<int>, key: seq<int>, i: nat)
    requires Ranges(key) && i == |key| && out == Expansion(key[..i])
    ensures out == Expansion(key) && |out| == RangeSize(key)
  {
    hide Expansion, Ranges;
    assert key[..i] == key;
    ExpansionFacts(key);
  }

  lemma {:induction false} OverflowIsLast(key: seq<int>, i: nat)
    requires Int32s(key) && Ranges(key) && i + 1 < |key| && i % 2 == 0
    ensures key[i + 1] == INT_MAX ==> key[|key| - 1] == INT_MAX
  {
    LastIsLargest(key, i + 1);
  }

  method WriteNext(dr: array<int>, n0: nat, key: seq<int>, i: nat) returns (n: nat, overflow: bool)
    requires Int32s(key) && Ranges(key) && i < |key| && i % 2 == 0 && dr.Length == RangeSize(key)
    requires n0 <= dr.Length && dr[..n0] == Expansion(key[..i])
    modifies dr
    ensures i + 1 < |key| && (overflow <==> key[i + 1] == INT_MAX)
    ensures overflow ==> key[|key| - 1] == INT_MAX
    ensures !overflow ==> n <= dr.Length && dr[..n] == Expansion(key[..i + 2])
  {
    assert |key| % 2 == 0;
    hide RangeSize, Expansion, Ranges, Run, Increasing;
    ExpansionStep(key, i);
    OverflowIsLast(key, i);
    assert i > 0 ==> dr[n0 - 1] == dr[..n0][n0 - 1];
    n, overflow := WriteRange(dr, n0, key[i], key[i + 1], i == 0);
  }

  // ----- the round trip through the index -----

  /** The ranges of a flat list as intervals. */
  ghost function Intervals(f: seq<int>): (ivs: seq<Interval>)
    requires |f| % 2 == 0
    ensures |ivs| == |f| / 2
  {
    if f == [] then [] else [Interval(f[0], f[1])] + Intervals(f[2..])
  }

  lemma {:induction false} IntervalsUnion(f: seq<int>, x: int)
    requires Ranges(f)
    ensures x in Union(Intervals(f)) <==> x in Expansion(f)
  {
    if f != [] {
      RangesTail(f);
      IntervalsUnion(f[2..], x);
      RunMembers(f[0], f[1], x);
      hide Ranges;
      var ivs := Intervals(f);
      assert ivs[1..] == Intervals(f[2..]);
      assert Within(ivs[0], x) <==> f[0] <= x <= f[1];
    }
  }

  lemma {:induction false} IncreasingSize(s: seq<int>)
    requires Increasing(s)
    ensures |set x | x in s| == |s|
  {
    if s == [] {
      assert (set x | x in s) == {};
    } else {
      var t := s[..|s| - 1];
      IncreasingSize(t);
      assert (set x | x in s) == (set x | x in t) + {s[|s| - 1]};
    }
  }

  /** The compressor gives up exactly when every union of at most `ranges` intervals around
      the array has more than the allowed number of integers. */
  lemma {:induction false} SparseIffEveryCoverIs(xs: seq<int>, ranges: nat, f: seq<int>, n: int)
    requires BestCover(xs, ranges, f)
    ensures RangeSize(f) > n <==> forall ivs: seq<Interval> | |ivs| <= ranges && IsCover(xs, ivs) :: |Union(ivs)| > n
  {
    assert |f| == 2 * ranges && Ranges(f);
    var own := Intervals(f);
    OwnIntervals(xs, f);
    assert |own| <= ranges && IsCover(xs, own);
    hide RangeSize, Union, Intervals, IsCover, InRanges, Ranges;
  }

  lemma {:induction false} OwnIntervals(xs: seq<int>, f: seq<int>)
    requires Ranges(f) && forall x | x in xs :: InRanges(f, x)
    ensures IsCover(xs, Intervals(f)) && |Union(Intervals(f))| == RangeSize(f)
  {
    hide Expansion, RangeSize, Union, Intervals, Increasing, InRanges;
    ExpansionFacts(f);
    IncreasingSize(Expansion(f));
    forall x: int
      ensures x in Union(Intervals(f)) <==> x in Expansion(f)
    {
      IntervalsUnion(f, x);
    }
    assert Union(Intervals(f)) == set x | x in Expansion(f);
    forall x | x in xs
      ensures x in Union(Intervals(f))
    {
      ExpansionMembers(f, x);
    }
  }

  /** What an internal key looks like to a search: written by the compressor, read back by
      the expansion. Every value comes back, in order and covered by as few integers as
      possible, unless the largest int is among those of a long key: then, within the size
      limit, the int counter of the expansion passes its range. */
  method Reload(xs: seq<int>, ranges: nat) returns (r: Expanded)
    requires Increasing(xs) && Int32s(xs) && 1 <= ranges
    ensures r.CounterOverflow? <==> |xs| >= 2 * ranges && INT_MAX in xs && !r.TooBig?
    ensures r.Elements? ==> Increasing(r.elems) && forall x | x in xs :: x in r.elems
    ensures |xs| < 2 * ranges ==> r == Elements(xs)
    ensures |xs| >= 2 * ranges ==>
              forall ivs: seq<Interval> | |ivs| <= ranges && IsCover(xs, ivs) ::
                (r.TooBig? ==> |Union(ivs)| > MAX_ELEMENTS) && (r.Elements? ==> |r.elems| <= |Union(ivs)|)
  {
    hide Expansion, RangeSize, Union, Increasing, IsCover, Ranges, InRanges, Int32s;
    var c := Compress(xs, ranges);
    if |xs| < 2 * ranges {
      return Elements(xs);
    }
    ghost var f :| BestCover(xs, ranges, f) && c == if RangeSize(f) > MAX_ELEMENTS then TooSparse else Key(f);
    SparseIffEveryCoverIs(xs, ranges, f, MAX_ELEMENTS);
    if c.TooSparse? {
      return TooBig;
    }
    BestCoverInt32(xs, ranges, f);
    r := ReadRanges(c.elems, ranges, xs);
  }

  /** Reading a key whose ranges lie around the elements of `xs` and end in them. */
  method ReadRanges(f: seq<int>, ranges: nat, ghost xs: seq<int>) returns (r: Expanded)
    requires 1 <= ranges && |f| == 2 * ranges && Ranges(f) && Int32s(f) && RangeSize(f) <= MAX_ELEMENTS
    requires (forall p | 0 <= p < |f| :: f[p] in xs) && (forall x | x in xs :: InRanges(f, x))
    ensures if INT_MAX in xs then r.CounterOverflow? else r.Elements?
    ensures r.Elements? ==> Increasing(r.elems) && |r.elems| == RangeSize(f) && forall x | x in xs :: x in r.elems
  {
    hide Expansion, RangeSize, Increasing, Ranges, InRanges;
    r := Decompress(f, ranges);
    LastEnd(f, xs);
    ExpansionFacts(f);
    if r.Elements? {
      forall x | x in xs
        ensures x in r.elems
      {
        ExpansionMembers(f, x);
      }
    }
  }

  lemma {:induction false} BelowLast(f: seq<int>, x: int)
    requires Ranges(f) && InRanges(f, x)
    ensures f != [] && x <= f[|f| - 1]
  {
    var p: nat :| InRange(f, p, x);
    LastIsLargest(f, p + 1);
  }

  /** The ranges end at the largest int exactly when it is an element. */
  lemma {:induction false} LastEnd(f: seq<int>, xs: seq<int>)
    requires f != [] && Ranges(f) && Int32s(f)
    requires (forall p | 0 <= p < |f| :: f[p] in xs) && (forall x | x in xs :: InRanges(f, x))
    ensures f[|f| - 1] == INT_MAX <==> INT_MAX in xs
  {
    hide Ranges, InRanges;
    if INT_MAX in xs {
      BelowLast(f, INT_MAX);
    }
  }

  lemma {:induction false} BestCoverInt32(xs: seq<int>, ranges: nat, f: seq<int>)
    requires Int32s(xs) && BestCover(xs, ranges, f)
    ensures Int32s(f)
  {
    forall p | 0 <= p < |f|
      ensures INT_MIN <= f[p] <= INT_MAX
    {
      assert f[p] in xs;
    }
  }
}
