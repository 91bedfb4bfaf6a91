/**
 The walk over one level of a B-Tree (bt_check_level_from_leftmost in
 contrib/amcheck/verify_nbtree.c): its blocks are distinct and at most as many as the index has,
 unless it meets a half-dead page twice, and then it can go on forever.
 */
module BtreeWalk {
  import opened Sets
  import opened BtreePages
  import opened BtreeCheck
  import opened BtreeCircles

  /** The block before the i-th one; none before the first. */
  ghost function LeftIn(walk: seq<nat>, i: nat): nat
    requires i < |walk|
  {
    if i == 0 then 0 else walk[i - 1]
  }

  /** What acceptance says about the i-th page of a level. */
  ghost predicate PageFine(rel: Rel, lvl: nat, walk: seq<nat>, i: nat)
    requires i < |walk|
  {
    && walk[i] != 0 && Loadable(rel, walk[i]) && !rel[walk[i]].deleted
    && walk[i] != LeftIn(walk, i) && walk[i] != rel[walk[i]].prev
    && (rel[walk[i]].next == 0 ==> !Ignore(rel[walk[i]]))
    && (!Ignore(rel[walk[i]]) ==> LiveFine(rel, lvl, rel[walk[i]], LeftIn(walk, i)))
  }

  /** A live page agrees with its left neighbour and passed all checks. */
  ghost predicate LiveFine(rel: Rel, lvl: nat, p: Page, left: nat) {
    && p.prev == left && p.level == lvl && InOrder(p) && CrossInOrder(rel, p)
    && (!p.leaf ==> ChildrenAgree(rel, p))
  }

  /** The pages of a level read so far, from its leftmost block on. */
  ghost predicate Walking(rel: Rel, lvl: nat, leftmost: nat, walk: seq<nat>) {
    && (walk != [] ==> walk[0] == leftmost)
    && (forall i | 0 <= i < |walk| :: PageFine(rel, lvl, walk, i))
    && (forall i | 0 < i < |walk| :: LinkAt(rel, walk, i))
  }

  lemma {:induction false} FineStays(rel: Rel, lvl: nat, walk: seq<nat>, b: nat, i: nat)
    requires i < |walk| && PageFine(rel, lvl, walk, i)
    ensures PageFine(rel, lvl, walk + [b], i)
  {
    hide LiveFine, Loadable, Ignore;
  }

  lemma {:induction false} WalkGrows(rel: Rel, lvl: nat, leftmost: nat, walk: seq<nat>, b: nat)
    requires Walking(rel, lvl, leftmost, walk) && PageFine(rel, lvl, walk + [b], |walk|)
    requires if walk == [] then b == leftmost else NextOf(rel, walk[|walk| - 1]) == b
    ensures Walking(rel, lvl, leftmost, walk + [b])
  {
    hide PageFine;
    var w := walk + [b];
    forall i | 0 <= i < |w|
      ensures PageFine(rel, lvl, w, i)
    {
      if i < |walk| {
        FineStays(rel, lvl, walk, b, i);
      }
    }
    forall i | 0 < i < |w|
      ensures LinkAt(rel, w, i)
    {
      if i < |walk| {
        assert LinkAt(rel, walk, i);
      } else {
        LastIn(rel, lvl, leftmost, walk);
      }
    }
  }

  lemma {:induction false} LastIn(rel: Rel, lvl: nat, leftmost: nat, walk: seq<nat>)
    requires Walking(rel, lvl, leftmost, walk) && walk != []
    ensures walk[|walk| - 1] in rel && walk[|walk| - 1] != 0 && Sane(rel[walk[|walk| - 1]])
  {
    hide LiveFine, Sane, LinkAt;
    assert PageFine(rel, lvl, walk, |walk| - 1);
  }

  /** Visiting the next page keeps the walk. */
  lemma {:induction false} WalkStep(rel: Rel, lvl: nat, leftmost: nat, walk: seq<nat>, b: nat)
    requires Walking(rel, lvl, leftmost, walk) && b != 0 && Loadable(rel, b) && !rel[b].deleted
    requires if walk == [] then b == leftmost else NextOf(rel, walk[|walk| - 1]) == b
    requires rel[b].next == 0 ==> !Ignore(rel[b])
    requires b != (if walk == [] then 0 else walk[|walk| - 1]) && b != rel[b].prev
    requires !Ignore(rel[b]) ==> LiveFine(rel, lvl, rel[b], if walk == [] then 0 else walk[|walk| - 1])
    ensures Walking(rel, lvl, leftmost, walk + [b])
  {
    hide LiveFine, Loadable, Ignore, Walking;
    assert PageFine(rel, lvl, walk + [b], |walk|);
    WalkGrows(rel, lvl, leftmost, walk, b);
  }

  // ----- repetition -----

  /** Two places of the walk hold the same half-dead page. */
  ghost predicate TwiceAt(rel: Rel, walk: seq<nat>, i: nat, j: nat) {
    i < j < |walk| && walk[i] == walk[j] && walk[i] in rel && rel[walk[i]].halfDead
  }

  ghost predicate HalfDeadTwice(rel: Rel, walk: seq<nat>) {
    exists i: nat, j: nat :: TwiceAt(rel, walk, i, j)
  }

  /** A live page agrees with its left neighbour, so a block that comes twice follows one that
      comes twice, back to a half-dead one. */
  lemma {:induction false} RepeatIsHalfDead(rel: Rel, lvl: nat, leftmost: nat, walk: seq<nat>, i: nat, j: nat)
    requires Walking(rel, lvl, leftmost, walk) && i < j < |walk| && walk[i] == walk[j]
    ensures HalfDeadTwice(rel, walk)
    decreases i
  {
    hide Sane, InOrder, CrossInOrder, ChildrenAgree, LinkAt;
    assert PageFine(rel, lvl, walk, i) && PageFine(rel, lvl, walk, j) && PageFine(rel, lvl, walk, j - 1);
    if rel[walk[i]].halfDead {
      assert TwiceAt(rel, walk, i, j);
    } else {
      RepeatIsHalfDead(rel, lvl, leftmost, walk, i - 1, j - 1);
    }
  }

  /** A walk, ended or not, meets distinct blocks if and only if it meets no half-dead page twice,
      and then no more of them than the index has. */
  lemma {:induction false} WalkIsBounded(rel: Rel, lvl: nat, leftmost: nat, walk: seq<nat>)
    requires Walking(rel, lvl, leftmost, walk)
    ensures Distinct(walk) <==> !HalfDeadTwice(rel, walk)
    ensures !HalfDeadTwice(rel, walk) ==> |walk| <= |rel|
  {
    if Distinct(walk) {
      BlocksIn(rel, lvl, leftmost, walk);
      DistinctFits(walk, rel.Keys);
      assert |rel.Keys| == |rel|;
    } else {
      var i, j :| 0 <= i < j < |walk| && walk[i] == walk[j];
      RepeatIsHalfDead(rel, lvl, leftmost, walk, i, j);
    }
  }

  lemma {:induction false} BlocksIn(rel: Rel, lvl: nat, leftmost: nat, walk: seq<nat>)
    requires Walking(rel, lvl, leftmost, walk)
    ensures forall i | 0 <= i < |walk| :: walk[i] in rel
  {
    hide LiveFine, Sane;
    forall i | 0 <= i < |walk|
      ensures walk[i] in rel
    {
      assert PageFine(rel, lvl, walk, i);
    }
  }

  // ----- walks without end -----

  /** The first pages of a walk are a walk. */
  lemma {:induction false} WalkPrefix(rel: Rel, lvl: nat, leftmost: nat, walk: seq<nat>, n: nat)
    requires Walking(rel, lvl, leftmost, walk) && n <= |walk|
    ensures Walking(rel, lvl, leftmost, walk[..n])
  {
    hide LiveFine, Loadable, Ignore;
    var part := walk[..n];
    forall i | 0 <= i < n
      ensures PageFine(rel, lvl, part, i)
    {
      assert PageFine(rel, lvl, walk, i);
    }
    forall i | 0 < i < n
      ensures LinkAt(rel, part, i)
    {
      assert LinkAt(rel, walk, i);
    }
  }

  /** From a half-dead page that comes again the walk can go on as it did before. */
  lemma {:induction false} OnceMore(rel: Rel, lvl: nat, leftmost: nat, walk: seq<nat>, i: nat)
    requires Walking(rel, lvl, leftmost, walk) && walk != [] && TwiceAt(rel, walk, i, |walk| - 1)
    ensures Walking(rel, lvl, leftmost, walk + walk[i + 1..])
    ensures TwiceAt(rel, walk + walk[i + 1..], i, |walk + walk[i + 1..]| - 1)
  {
    hide LiveFine, Loadable, Ignore;
    var n := |walk|;
    var longer := walk + walk[i + 1..];
    forall k | 0 <= k < |longer|
      ensures PageFine(rel, lvl, longer, k)
    {
      var m := if k < n then k else k - n + i + 1;
      assert PageFine(rel, lvl, walk, m);
      assert longer[k] == walk[m] && LeftIn(longer, k) == LeftIn(walk, m);
    }
    forall k | 0 < k < |longer|
      ensures LinkAt(rel, longer, k)
    {
      var m := if k < n then k else k - n + i + 1;
      assert LinkAt(rel, walk, m);
      assert longer[k] == walk[m] && longer[k - 1] == walk[m - 1];
    }
  }

  /** The first live page is the first page of the walk and, on the level of the true root, has
      the root flag. */
  ghost predicate FirstOk(rel: Rel, trueRoot: bool, walk: seq<nat>) {
    walk != [] ==>
      && walk[0] in rel
      && if Ignore(rel[walk[0]]) then forall i | 0 <= i < |walk| :: walk[i] in rel && Ignore(rel[walk[i]])
         else trueRoot ==> rel[walk[0]].root
  }

  /** A walk of the checker on the given level. */
  ghost predicate CheckedWalk(rel: Rel, lvl: nat, leftmost: nat, trueRoot: bool, walk: seq<nat>) {
    Walking(rel, lvl, leftmost, walk) && FirstOk(rel, trueRoot, walk)
  }

  /** The block after a walk. */
  ghost function NextBlock(rel: Rel, leftmost: nat, walk: seq<nat>): nat {
    if walk == [] then leftmost else NextOf(rel, walk[|walk| - 1])
  }

  /** On the leaf level, the live page after a walk whose right siblings are all ignorable, without
      end: the check does not get past it. */
  ghost predicate StuckAt(rel: Rel, trueRoot: bool, walk: seq<nat>, b: nat, steps: nat) {
    && b != 0 && Live(rel, b) && rel[b].prev == LeftIn(walk + [b], |walk|) && rel[b].level == 0
    && FirstOk(rel, trueRoot, walk + [b])
    && InOrder(rel[b]) && Data(rel[b]) != [] && Blind(rel, rel[b].next, steps)
  }

  /** A leaf level that is never decided: a walk over it meets a half-dead page twice, or is stuck. */
  ghost predicate LeafEndless(rel: Rel, leftmost: nat, trueRoot: bool) {
    exists walk :: CheckedWalk(rel, 0, leftmost, trueRoot, walk) &&
      (HalfDeadTwice(rel, walk) || StuckAt(rel, trueRoot, walk, NextBlock(rel, leftmost, walk), |rel| + 1))
  }

  lemma {:induction false} StuckForever(rel: Rel, trueRoot: bool, walk: seq<nat>, b: nat, n: nat, m: nat)
    requires StuckAt(rel, trueRoot, walk, b, n) && n > |rel|
    ensures StuckAt(rel, trueRoot, walk, b, m)
  {
    hide Blind, Data, InOrder, FirstOk, Sane;
    BlindForever(rel, rel[b].next, n, m);
  }

  ghost predicate WalkOf(rel: Rel, lvl: nat, leftmost: nat, trueRoot: bool, n: nat) {
    exists walk :: |walk| == n && CheckedWalk(rel, lvl, leftmost, trueRoot, walk)
  }

  lemma {:induction false} FirstStays(rel: Rel, trueRoot: bool, walk: seq<nat>, other: seq<nat>)
    requires FirstOk(rel, trueRoot, walk) && walk != [] && (other != [] ==> other[0] == walk[0])
    requires forall k | 0 <= k < |other| :: exists m :: 0 <= m < |walk| && walk[m] == other[k]
    ensures FirstOk(rel, trueRoot, other)
  {
    hide Ignore;
    forall k | 0 <= k < |other| && Ignore(rel[walk[0]])
      ensures other[k] in rel && Ignore(rel[other[k]])
    {
      var m :| 0 <= m < |walk| && walk[m] == other[k];
    }
  }

  /** A walk that returned to a half-dead page can be made as long as one likes. */
  lemma {:induction false} GoesOn(rel: Rel, lvl: nat, leftmost: nat, trueRoot: bool, walk: seq<nat>, i: nat, n: nat)
    requires CheckedWalk(rel, lvl, leftmost, trueRoot, walk) && walk != [] && TwiceAt(rel, walk, i, |walk| - 1)
    ensures WalkOf(rel, lvl, leftmost, trueRoot, n)
    decreases if n > |walk| then n - |walk| else 0
  {
    hide Walking, FirstOk;
    if n <= |walk| {
      var part := walk[..n];
      WalkPrefix(rel, lvl, leftmost, walk, n);
      assert forall k | 0 <= k < n :: walk[k] == part[k];
      FirstStays(rel, trueRoot, walk, part);
      assert CheckedWalk(rel, lvl, leftmost, trueRoot, part);
    } else {
      var longer := walk + walk[i + 1..];
      OnceMore(rel, lvl, leftmost, walk, i);
      forall k | 0 <= k < |longer|
        ensures exists m :: 0 <= m < |walk| && walk[m] == longer[k]
      {
        assert walk[if k < |walk| then k else k - |walk| + i + 1] == longer[k];
      }
      FirstStays(rel, trueRoot, walk, longer);
      GoesOn(rel, lvl, leftmost, trueRoot, longer, i, n);
    }
  }

  /** There are walks of every length from a block, if and only if some walk from it meets a
      half-dead page twice. */
  lemma {:induction false} EndlessIff(rel: Rel, lvl: nat, leftmost: nat, trueRoot: bool)
    ensures (forall n: nat :: WalkOf(rel, lvl, leftmost, trueRoot, n)) <==>
            (exists walk :: CheckedWalk(rel, lvl, leftmost, trueRoot, walk) && HalfDeadTwice(rel, walk))
  {
    hide Walking, FirstOk;
    if forall n: nat :: WalkOf(rel, lvl, leftmost, trueRoot, n) {
      var n: nat := |rel| + 1;
      assert WalkOf(rel, lvl, leftmost, trueRoot, n);
      var walk :| |walk| == n && CheckedWalk(rel, lvl, leftmost, trueRoot, walk);
      WalkIsBounded(rel, lvl, leftmost, walk);
    }
    if exists walk :: CheckedWalk(rel, lvl, leftmost, trueRoot, walk) && HalfDeadTwice(rel, walk) {
      var walk :| CheckedWalk(rel, lvl, leftmost, trueRoot, walk) && HalfDeadTwice(rel, walk);
      var i: nat, j: nat :| TwiceAt(rel, walk, i, j);
      var part := walk[..j + 1];
      WalkPrefix(rel, lvl, leftmost, walk, j + 1);
      assert forall k | 0 <= k <= j :: walk[k] == part[k];
      FirstStays(rel, trueRoot, walk, part);
      forall n: nat
        ensures WalkOf(rel, lvl, leftmost, trueRoot, n)
      {
        GoesOn(rel, lvl, leftmost, trueRoot, part, i, n);
      }
    }
  }

  // ----- an input -----

  /** A root leaf and two half-dead pages that link to each other. */
  function CircularRel(): Rel {
    map[
      1 := Page(true, true, false, false, false, 0, 2, 0, [Item(0, 0)]),
      2 := Page(true, false, false, true, false, 1, 3, 0, [Item(0, 0)]),
      3 := Page(true, false, false, true, false, 2, 2, 0, [Item(0, 0)])
    ]
  }

  /** The walk over it passes every test, of any length. */
  lemma {:induction false} CircularWalk(n: nat)
    ensures WalkOf(CircularRel(), 0, 1, true, n)
  {
    var rel, walk := CircularRel(), [1, 2, 3, 2];
    forall i | 0 <= i < |walk|
      ensures PageFine(rel, 0, walk, i)
    {
      assert i == 0 || i == 1 || i == 2 || i == 3;
    }
    forall i | 0 < i < |walk|
      ensures LinkAt(rel, walk, i)
    {
      assert i == 1 || i == 2 || i == 3;
    }
    assert TwiceAt(rel, walk, 1, 3);
    hide Walking, FirstOk;
    assert CheckedWalk(rel, 0, 1, true, walk) by { CircularFirst(walk); }
    GoesOn(rel, 0, 1, true, walk, 1, n);
  }

  lemma {:induction false} CircularFirst(walk: seq<nat>)
    requires Walking(CircularRel(), 0, 1, walk)
    ensures FirstOk(CircularRel(), true, walk)
  {
    hide Walking;
    if walk != [] {
      FirstIs(CircularRel(), 0, 1, walk);
    }
  }

  lemma {:induction false} FirstIs(rel: Rel, lvl: nat, leftmost: nat, walk: seq<nat>)
    requires Walking(rel, lvl, leftmost, walk) && walk != []
    ensures walk[0] == leftmost
  {
  }
}
