/**
 When the loops of the B-Tree check (contrib/amcheck/verify_nbtree.c) that follow links on the
 child level and down the tree can run on: only along a circle of right links.
 */
module BtreeCircles {
  import opened Sets
  import opened BtreePages

  /** More steps than the index has blocks, which have 32-bit numbers. */
  ghost predicate Spacious(rel: Rel, steps: nat) {
    |rel| < steps && |rel| < 0x1_0000_0000
  }

  /** Right links that lead back to where they started. */
  ghost predicate Circle(rel: Rel, path: seq<nat>) {
    |path| >= 2 && path[0] == path[|path| - 1] && forall i | 0 < i < |path| :: LinkAt(rel, path, i)
  }

  /** Pages passed one after the other, each with an excuse for having no downlink. */
  ghost predicate Passing(rel: Rel, path: seq<nat>) {
    && (forall i | 0 <= i < |path| :: path[i] in rel)
    && (forall i | 0 < i < |path| :: LinkAt(rel, path, i) && Skippable(rel, path, i))
  }

  /** A circle all of whose pages have such an excuse. */
  ghost predicate SkipCircle(rel: Rel) {
    exists path :: Circle(rel, path) && Passing(rel, path)
  }

  lemma {:induction false} PassingGrows(rel: Rel, path: seq<nat>, b: nat)
    requires Passing(rel, path) && b in rel
    requires path != [] ==> rel[path[|path| - 1]].next == b
    requires Ignore(rel[b]) || rel[b].root || TopOfDeletion(rel, b) || path == [] || rel[path[|path| - 1]].incomplete
    ensures Passing(rel, path + [b])
  {
    hide Ignore, TopOfDeletion;
    var longer := path + [b];
    forall i | 0 < i < |longer|
      ensures LinkAt(rel, longer, i) && Skippable(rel, longer, i)
    {
      if i < |path| {
        assert LinkAt(rel, path, i) && Skippable(rel, path, i);
      }
    }
  }

  /** A part of such a path is one. */
  lemma {:induction false} PassingPart(rel: Rel, path: seq<nat>, i: nat, j: nat)
    requires Passing(rel, path) && i <= j <= |path|
    ensures Passing(rel, path[i..j])
  {
    hide Ignore, TopOfDeletion;
    var part := path[i..j];
    forall k | 0 < k < |part|
      ensures LinkAt(rel, part, k) && Skippable(rel, part, k)
    {
      assert LinkAt(rel, path, i + k) && Skippable(rel, path, i + k);
      assert part[k] == path[i + k] && part[k - 1] == path[i + k - 1];
    }
  }

  /** A path with more pages than there are has run into a circle. */
  lemma {:induction false} PassingCircle(rel: Rel, path: seq<nat>)
    requires Passing(rel, path) && |path| > |rel|
    ensures SkipCircle(rel)
  {
    hide Skippable;
    assert |rel.Keys| == |rel|;
    if Distinct(path) {
      DistinctFits(path, rel.Keys);
    }
    var i, j :| 0 <= i < j < |path| && path[i] == path[j];
    PassingPart(rel, path, i, j + 1);
    var part := path[i..j + 1];
    assert Circle(rel, part);
  }

  /** The pages passed in search of a live one. */
  lemma {:induction false} PassedIsPassing(rel: Rel, path: seq<nat>, n: nat)
    requires n < |path| && forall i | 0 <= i < |path| - 1 :: PassedAt(rel, path, i)
    ensures Passing(rel, path[..n])
  {
    hide TopOfDeletion;
    var part := path[..n];
    forall i | 0 <= i < n
      ensures part[i] in rel && Ignore(rel[part[i]])
    {
      assert PassedAt(rel, path, i);
    }
    forall i | 0 < i < n
      ensures LinkAt(rel, part, i) && Skippable(rel, part, i)
    {
      assert PassedAt(rel, path, i - 1);
    }
  }

  /** After the given number of ignorable pages no live one is reached. */
  ghost predicate PassedPath(rel: Rel, b: nat, path: seq<nat>, steps: nat) {
    |path| == steps + 1 && path[0] == b && forall i | 0 <= i < |path| - 1 :: PassedAt(rel, path, i)
  }

  /** No live page comes within that many. */
  ghost predicate Blind(rel: Rel, b: nat, steps: nat) {
    b != 0 && exists path :: PassedPath(rel, b, path, steps)
  }

  /** A path that has returned to one of its blocks goes on as before. */
  lemma {:induction false} PassedLonger(rel: Rel, b: nat, path: seq<nat>, n: nat, k: nat, m: nat)
    requires PassedPath(rel, b, path, n) && k < n <= m && path[k] == path[n]
    ensures exists longer :: PassedPath(rel, b, longer, m)
    decreases m - n
  {
    hide Loadable, Ignore;
    if n < m {
      assert PassedAt(rel, path, k);
      var longer := path + [path[k + 1]];
      forall i | 0 <= i < n + 1
        ensures PassedAt(rel, longer, i)
      {
        if i < n {
          assert PassedAt(rel, path, i);
        }
      }
      PassedLonger(rel, b, longer, n + 1, k + 1, m);
    }
  }

  lemma {:induction false} PassedShorter(rel: Rel, b: nat, path: seq<nat>, n: nat, m: nat)
    requires PassedPath(rel, b, path, n) && m <= n
    ensures PassedPath(rel, b, path[..m + 1], m)
  {
    hide Loadable, Ignore;
    var part := path[..m + 1];
    forall i | 0 <= i < m
      ensures PassedAt(rel, part, i)
    {
      assert PassedAt(rel, path, i);
    }
  }

  /** With no live page within more pages than there are, none ever comes. */
  lemma {:induction false} BlindForever(rel: Rel, b: nat, n: nat, m: nat)
    requires Blind(rel, b, n) && n > |rel|
    ensures Blind(rel, b, m)
  {
    hide PassedAt;
    var path :| PassedPath(rel, b, path, n);
    if m <= n {
      PassedShorter(rel, b, path, n, m);
    } else {
      var i, j := PassedTwice(rel, b, path, n);
      PassedShorter(rel, b, path, n, j);
      PassedLonger(rel, b, path[..j + 1], j, i, m);
    }
  }

  lemma {:induction false} PassedTwice(rel: Rel, b: nat, path: seq<nat>, n: nat) returns (i: nat, j: nat)
    requires PassedPath(rel, b, path, n) && n > |rel|
    ensures i < j < n && path[i] == path[j]
  {
    var part := path[..n];
    forall k | 0 <= k < n
      ensures part[k] in rel.Keys
    {
      assert PassedAt(rel, path, k);
    }
    assert |rel.Keys| == |rel|;
    if Distinct(part) {
      DistinctFits(part, rel.Keys);
    }
    i, j :| 0 <= i < j < n && part[i] == part[j];
  }

  /** At most one path leads to the first live page. */
  lemma {:induction false} SamePath(rel: Rel, b: nat, p: seq<nat>, q: seq<nat>)
    requires RightPath(rel, b, p) && RightPath(rel, b, q)
    ensures p == q
  {
    SamePrefix(rel, b, p, q, if |p| < |q| then |p| - 1 else |q| - 1);
    assert |p| < |q| ==> PassedAt(rel, q, |p| - 1);
    assert |q| < |p| ==> PassedAt(rel, p, |q| - 1);
  }

  lemma {:induction false} SamePrefix(rel: Rel, b: nat, p: seq<nat>, q: seq<nat>, n: nat)
    requires RightPath(rel, b, p) && RightPath(rel, b, q) && n < |p| && n < |q|
    ensures p[..n + 1] == q[..n + 1]
  {
    if n > 0 {
      SamePrefix(rel, b, p, q, n - 1);
      assert PassedAt(rel, p, n - 1) && PassedAt(rel, q, n - 1);
      assert p[n - 1] == p[..n][n - 1] && q[n - 1] == q[..n][n - 1];
      assert p[..n + 1] == p[..n] + [p[n]] && q[..n + 1] == q[..n] + [q[n]];
    }
  }

  // ----- down the tree -----

  /** Blocks each one level below the one before, in unsigned arithmetic. */
  ghost predicate Sinking(rel: Rel, path: seq<nat>) {
    && (forall i | 0 <= i < |path| :: path[i] in rel)
    && (forall i | 0 < i < |path| :: OneBelow(rel, path, i))
  }

  ghost predicate OneBelow(rel: Rel, path: seq<nat>, i: nat)
    requires 0 < i < |path|
  {
    path[i] in rel && path[i - 1] in rel && rel[path[i]].level == LevelBelow(rel[path[i - 1]].level)
  }

  /** The level k steps down. */
  lemma {:induction false} LevelAt(rel: Rel, path: seq<nat>, i: nat, k: nat)
    requires Sinking(rel, path) && i + k < |path| && k < 0x1_0000_0000
    ensures var l := rel[path[i]].level;
            rel[path[i + k]].level == if k <= l then l - k else l + 0x1_0000_0000 - k
  {
    if k > 0 {
      LevelAt(rel, path, i, k - 1);
      assert OneBelow(rel, path, i + k);
    }
  }

  /** No block comes twice within 2^32 steps, so the descent ends. */
  lemma {:induction false} SinkingFits(rel: Rel, path: seq<nat>)
    requires Sinking(rel, path) && |rel| < 0x1_0000_0000
    ensures |path| <= |rel|
  {
    var n := if |path| <= |rel| then |path| else |rel| + 1;
    var part := path[..n];
    forall i, j | 0 <= i < j < n
      ensures part[i] != part[j]
    {
      LevelAt(rel, path, i, j - i);
    }
    DistinctFits(part, rel.Keys);
    assert |rel.Keys| == |rel|;
  }

  lemma {:induction false} SinkingGrows(rel: Rel, path: seq<nat>, b: nat)
    requires Sinking(rel, path) && b in rel
    requires path != [] ==> rel[b].level == LevelBelow(rel[path[|path| - 1]].level)
    ensures Sinking(rel, path + [b])
  {
    hide LevelBelow;
    var longer := path + [b];
    forall i | 0 < i < |longer|
      ensures OneBelow(rel, longer, i)
    {
      if i < |path| {
        assert OneBelow(rel, path, i);
      }
    }
  }
}
