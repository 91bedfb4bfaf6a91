/**
 The other direction of the B-Tree check (contrib/amcheck/verify_nbtree.c): a tree with all the
 properties that acceptance establishes is accepted, when no split or deletion is pending
 and every page of a level has its own downlink. In particular the check accepts a tree in
 which a search misses an item. And when the check comes to an end at all: always without a
 circle of right links.
 */
module BtreeExact {
  import opened Wrappers
  import opened BtreePages
  import opened BtreeCheck
  import opened BtreeCircles
  import opened BtreeWalk
  import opened BtreeLevels
  import opened BtreeTree
  import opened BtreeSearch

  /** Every page of the child level is under a downlink of its own. */
  ghost predicate AllLinked(rel: Rel, t: Trace) {
    Downlinks(rel, t.walk) == t.chain
  }

  /** A block of a quiet level: its left neighbour is another block. */
  lemma {:induction false} LeftDiffers(rel: Rel, lvl: nat, t: Trace, i: nat)
    requires LevelAccepted(rel, lvl, t) && Quiet(rel, t.walk) && i < |t.walk|
    ensures t.walk[i] in rel && t.walk[i] != 0 && rel[t.walk[i]].prev != t.walk[i]
    ensures rel[t.walk[i]].prev == if i == 0 then 0 else t.walk[i - 1]
    ensures LiveFine(rel, lvl, rel[t.walk[i]], rel[t.walk[i]].prev)
  {
    hide InOrder, CrossInOrder, ChildrenAgree, ChildLevelThreaded, Sane;
    assert PageFine(rel, lvl, t.walk, i);
  }

  /** The page of the K-th downlink is what the walk on the child level is at. */
  lemma {:induction false} ChainStep(rel: Rel, lvl: nat, t: Trace, u: Trace, k: nat)
    requires lvl > 0 && LevelAccepted(rel, lvl, t) && LevelAccepted(rel, lvl - 1, u) && Quiet(rel, u.walk)
    requires u.leftmost == Below(rel, t) && NoZero(Downlinks(rel, t.walk)) && AllLinked(rel, t)
    requires k < |Downlinks(rel, t.walk)|
    ensures var ds := Downlinks(rel, t.walk);
            && ds[k] != 0 && ds[k] in rel && rel[ds[k]].prev != ds[k]
            && (k == 0 ==> rel[ds[k]].prev == 0) && (k > 0 ==> NextOf(rel, ds[k - 1]) == ds[k])
            && (k + 1 == |ds| ==> NextOf(rel, ds[k]) == 0)
  {
    hide LevelFine, Downlinks, Quiet, Threaded, Skippable, LiveFine;
    ChainIsWalk(rel, lvl, t, lvl - 1, u);
    LeftDiffers(rel, lvl - 1, u, k);
    WalkIsChain(rel, lvl - 1, u);
    if k > 0 {
      assert LinkAt(rel, u.walk, k);
    }
  }

  /** The child of the d-th downlink of the i-th page is reached when it is its turn. */
  lemma {:induction false} ReachedAt(rel: Rel, lvl: nat, t: Trace, u: Trace, i: nat, d: nat)
    requires lvl > 0 && LevelAccepted(rel, lvl, t) && LevelAccepted(rel, lvl - 1, u)
    requires Quiet(rel, t.walk) && Quiet(rel, u.walk)
    requires u.leftmost == Below(rel, t) && NoZero(Downlinks(rel, t.walk)) && AllLinked(rel, t)
    requires i < |t.walk| && t.walk[i] in rel && d < |Data(rel[t.walk[i]])|
    ensures Reached(rel, rel[t.walk[i]], d, After(rel, rel[t.walk[i]], d, Before(rel, t.walk, i)))
  {
    hide LevelAccepted, Downlinks, Quiet, Data, InOrder, ChildAgrees, NoZero, Separates;
    var p := rel[t.walk[i]];
    PageOfLevel(rel, lvl, t, i);
    LiveLevel(rel, lvl, t, i);
    PlaceOf(rel, t.walk, i, d);
    var k := Place(rel, t.walk, i, d);
    ChainStep(rel, lvl, t, u, k);
    assert ChildAgrees(rel, p, d);
    ArrivedFrom(rel, p, d);
    if d > 0 {
      PlaceOf(rel, t.walk, i, d - 1);
    } else if i > 0 {
      PageOfLevel(rel, lvl, t, i - 1);
      LiveLevel(rel, lvl, t, i - 1);
      var m := |Data(rel[t.walk[i - 1]])| - 1;
      PlaceOf(rel, t.walk, i - 1, m);
    } else {
      assert t.walk[..0] == [];
      assert Downlinks(rel, []) == [] by { NoDownlinks(rel); }
    }
  }

  lemma {:induction false} NoDownlinks(rel: Rel)
    ensures Downlinks(rel, []) == []
  {
  }

  lemma {:induction false} ArrivedFrom(rel: Rel, p: Page, d: nat)
    requires d < |Data(p)| && ChildAgrees(rel, p, d) && Data(p)[d].link != 0
    ensures Arrived(rel, p, d)
  {
  }

  /** Where the walk on the child level is before the i-th page. */
  ghost function Before(rel: Rel, walk: seq<nat>, i: nat): Option<nat>
    requires i <= |walk|
  {
    if i == 0 then None else RightOf(rel, walk[i - 1])
  }

  /** After the last page the child level is read to its end. */
  lemma {:induction false} LastEnds(rel: Rel, lvl: nat, t: Trace, u: Trace, i: nat)
    requires lvl > 0 && LevelAccepted(rel, lvl, t) && LevelAccepted(rel, lvl - 1, u)
    requires Quiet(rel, t.walk) && Quiet(rel, u.walk)
    requires u.leftmost == Below(rel, t) && NoZero(Downlinks(rel, t.walk)) && AllLinked(rel, t)
    requires i + 1 == |t.walk| && t.walk[i] in rel
    ensures After(rel, rel[t.walk[i]], |Data(rel[t.walk[i]])|, Before(rel, t.walk, i)) == Some(0)
  {
    hide LevelAccepted, Downlinks, Quiet, Data, InOrder, ChildrenAgree, NoZero;
    PageOfLevel(rel, lvl, t, i);
    LiveLevel(rel, lvl, t, i);
    var m := |Data(rel[t.walk[i]])| - 1;
    PlaceOf(rel, t.walk, i, m);
    assert t.walk[..i + 1] == t.walk;
    ChainStep(rel, lvl, t, u, Place(rel, t.walk, i, m));
  }

  /** An internal page of an accepted quiet level is ready. */
  lemma {:induction false} InnerReady(rel: Rel, lvl: nat, t: Trace, u: Trace, i: nat)
    requires lvl > 0 && LevelAccepted(rel, lvl, t) && LevelAccepted(rel, lvl - 1, u)
    requires Quiet(rel, t.walk) && Quiet(rel, u.walk)
    requires u.leftmost == Below(rel, t) && NoZero(Downlinks(rel, t.walk)) && AllLinked(rel, t)
    requires i < |t.walk|
    ensures ReadyAtIndex(rel, lvl, t.walk, i)
  {
    hide LevelAccepted, Downlinks, Quiet, InOrder, CrossInOrder, ChildrenAgree, NoZero, Data, Reached, AllLinked, After;
    PageOfLevel(rel, lvl, t, i);
    LiveLevel(rel, lvl, t, i);
    LeftDiffers(rel, lvl, t, i);
    RightIsLive(rel, lvl, t, i);
    var p, right := rel[t.walk[i]], Before(rel, t.walk, i);
    forall d | 0 <= d < |Data(p)|
      ensures Reached(rel, p, d, After(rel, p, d, right))
    {
      ReachedAt(rel, lvl, t, u, i, d);
    }
    if i + 1 == |t.walk| {
      LastEnds(rel, lvl, t, u, i);
    }
    assert PageReady(rel, p, right);
  }

  /** The right neighbour of a page of a quiet level is the next page, and is live. */
  lemma {:induction false} RightIsLive(rel: Rel, lvl: nat, t: Trace, i: nat)
    requires LevelAccepted(rel, lvl, t) && Quiet(rel, t.walk) && i < |t.walk|
    ensures Live(rel, t.walk[i]) && NextOf(rel, t.walk[i]) == if i + 1 < |t.walk| then t.walk[i + 1] else 0
    ensures i + 1 < |t.walk| ==> Live(rel, t.walk[i + 1])
  {
    hide LiveFine, ChildLevelThreaded;
    assert PageFine(rel, lvl, t.walk, i);
    if i + 1 < |t.walk| {
      assert PageFine(rel, lvl, t.walk, i + 1);
      assert LinkAt(rel, t.walk, i + 1);
    }
  }

  lemma {:induction false} LeafReady(rel: Rel, t: Trace, i: nat)
    requires LevelAccepted(rel, 0, t) && Quiet(rel, t.walk) && i < |t.walk|
    ensures ReadyAtIndex(rel, 0, t.walk, i)
  {
    hide LevelAccepted, Quiet, InOrder, CrossInOrder, ChildrenAgree, Data, Reached, After;
    LeftDiffers(rel, 0, t, i);
    RightIsLive(rel, 0, t, i);
  }

  ghost function Walks(ts: seq<Trace>): (ws: seq<seq<nat>>)
    ensures |ws| == |ts| && forall k | 0 <= k < |ts| :: ws[k] == ts[k].walk
  {
    seq(|ts|, k requires 0 <= k < |ts| => ts[k].walk)
  }

  /** No split or deletion is pending, no downlink is zero, and every page has its downlink. */
  ghost predicate Settled(rel: Rel, ts: seq<Trace>) {
    && QuietLevels(rel, ts) && NoZeroLevels(rel, ts)
    && (forall k | 0 <= k < |ts| - 1 :: AllLinked(rel, ts[k]))
  }

  lemma {:induction false} SettledLevel(rel: Rel, top: nat, root: nat, ts: seq<Trace>, k: nat)
    requires Accepted(rel, top, root, ts) && Settled(rel, ts) && root != 0 && k < |ts| == top + 1
    ensures LevelReady(rel, top - k, ts[k].walk)
  {
    hide LevelAccepted, Downlinks, NoZero, AllLinked, Quiet, ReadyAtIndex;
    var t, lvl := ts[k], top - k;
    assert t.walk != [] by { WalkIsChain(rel, lvl, t); }
    forall i | 0 <= i < |t.walk|
      ensures ReadyAtIndex(rel, lvl, t.walk, i)
    {
      if lvl > 0 {
        InnerReady(rel, lvl, t, ts[k + 1], i);
      } else {
        LeafReady(rel, t, i);
      }
    }
  }

  /** What acceptance establishes about a settled tree is also enough for acceptance. */
  lemma {:induction false} SettledIsReady(rel: Rel, top: nat, root: nat, ts: seq<Trace>, steps: nat)
    requires Accepted(rel, top, root, ts) && Settled(rel, ts) && root != 0 && TrueRoot(rel, root, top)
    requires forall k | 0 <= k < |ts| :: |ts[k].walk| <= steps
    ensures TreeReady(rel, top, root, Walks(ts), steps)
  {
    hide LevelAccepted, Downlinks, NoZero, AllLinked, Quiet, LevelReady, FirstLink;
    AllLevels(rel, top, root, ts);
    var ws := Walks(ts);
    forall k | 0 <= k < |ws|
      ensures LevelReadyAt(rel, top, ws, k, steps)
    {
      SettledLevel(rel, top, root, ts, k);
      WalkIsChain(rel, top - k, ts[k]);
      WalkFirst(rel, top - k, ts[k]);
      if k < top {
        WalkIsChain(rel, top - k - 1, ts[k + 1]);
      }
    }
    WalkIsChain(rel, top, ts[0]);
  }

  lemma {:induction false} WalkFirst(rel: Rel, lvl: nat, t: Trace)
    requires LevelAccepted(rel, lvl, t)
    ensures t.walk != [] && t.walk[0] in rel && t.walk[0] != 0
  {
    hide LiveFine, ChildLevelThreaded;
    assert PageFine(rel, lvl, t.walk, 0);
  }

  /** The check is exact on settled trees: it accepts exactly those with these properties. */
  method CheckSettled(rel: Rel, root: nat, top: nat, steps: nat, ghost ts: seq<Trace>) returns (v: Verdict)
    requires 0 !in rel && root != 0 && Settled(rel, ts) && forall k | 0 <= k < |ts| :: |ts[k].walk| <= steps
    ensures Accepted(rel, top, root, ts) && TrueRoot(rel, root, top) ==> v.Accept?
    ensures v.Accept? ==> TrueRoot(rel, root, top) && exists us :: Accepted(rel, top, root, us)
  {
    hide Settled, Accepted, TreeReady, TrueRoot;
    if Accepted(rel, top, root, ts) && TrueRoot(rel, root, top) {
      SettledIsReady(rel, top, root, ts, steps);
    }
    ghost var us;
    v, us := CheckEveryLevel(rel, root, top, steps, Walks(ts));
  }

  // ----- the tree with a missed item -----

  lemma {:induction false} CousinSettled()
    ensures Settled(CousinRel(), CousinLevels()) && TrueRoot(CousinRel(), 1, 2)
  {
    hide Downlinks, Data;
    CousinDownlinks();
  }

  /** The check accepts the tree in which a search from the root misses an item. */
  method CheckCousins() returns (v: Verdict)
    ensures v.Accept?
  {
    hide Settled, Accepted, TrueRoot;
    CousinSettled();
    CousinAccepted();
    v := CheckSettled(CousinRel(), 1, 2, 4, CousinLevels());
  }

  // ----- termination -----

  /** No right links lead back to where they started. */
  ghost predicate NoCircle(rel: Rel) {
    forall path :: !Circle(rel, path)
  }

  /** A walk that meets a page twice goes round a circle. */
  lemma {:induction false} EndlessIsCircle(rel: Rel)
    requires SkipCircle(rel) || EndlessLevel(rel)
    ensures !NoCircle(rel)
  {
    hide Passing, PageFine, FirstOk;
    if SkipCircle(rel) {
      var path :| Circle(rel, path) && Passing(rel, path);
    } else {
      var lvl, leftmost, trueRoot, walk :|
        CheckedWalk(rel, lvl, leftmost, trueRoot, walk) && HalfDeadTwice(rel, walk);
      var i: nat, j: nat :| TwiceAt(rel, walk, i, j);
      var part := walk[i..j + 1];
      forall k | 0 < k < |part|
        ensures LinkAt(rel, part, k)
      {
        assert LinkAt(rel, walk, i + k);
      }
      assert Circle(rel, part);
    }
  }

  /** Without a circle of right links the check decides within one step more than the index has
      blocks. */
  method CheckAcyclic(rel: Rel, root: nat, top: nat) returns (v: Verdict)
    requires 0 !in rel && |rel| < 0x1_0000_0000 && NoCircle(rel)
    ensures v.Accept? || v.Corrupt?
    ensures v.Accept? ==> exists ts :: Accepted(rel, top, root, ts)
  {
    hide NoCircle, SkipCircle, EndlessLevel, Accepted, TreeReady, TrueRoot, CheckedWalk;
    ghost var ts;
    v, ts := CheckEveryLevel(rel, root, top, |rel| + 1, []);
    if v.OutOfSteps? {
      EndlessIsCircle(rel);
    }
  }

  /** On a leaf level, with more steps than the index has blocks, the check fails to decide if and
      only if some walk meets a half-dead page twice or comes to a page whose right siblings
      are ignorable without end; and then no number of steps is enough. */
  method CheckLeafLevel(rel: Rel, leftmost: nat, trueRoot: bool, steps: nat) returns (v: Verdict)
    requires 0 !in rel && leftmost != 0
    ensures LeafEndless(rel, leftmost, trueRoot) ==> v.OutOfSteps?
    ensures Spacious(rel, steps) && v.OutOfSteps? ==> LeafEndless(rel, leftmost, trueRoot)
  {
    hide CheckedWalk, HalfDeadTwice, SkipCircle, LevelFine, ChildLevelThreaded, ReadyFrom, FirstLink, StuckAt;
    var st := new CheckState(rel);
    ghost var w: seq<nat> := [];
    if LeafEndless(rel, leftmost, trueRoot) {
      w := LeafWitness(rel, leftmost, trueRoot, steps);
    }
    var next;
    ghost var walk;
    v, next, walk := CheckLevel(st, 0, leftmost, trueRoot, steps, w);
    if Spacious(rel, steps) && v.OutOfSteps? {
      var b := NextBlock(rel, leftmost, walk);
      if !HalfDeadTwice(rel, walk) {
        StuckForever(rel, trueRoot, walk, b, steps, |rel| + 1);
      }
    }
  }

  /** A walk that is too long for the steps or gets stuck. */
  lemma {:induction false} LeafWitness(rel: Rel, leftmost: nat, trueRoot: bool, steps: nat) returns (w: seq<nat>)
    requires LeafEndless(rel, leftmost, trueRoot)
    ensures CheckedWalk(rel, 0, leftmost, trueRoot, w)
    ensures |w| > steps || StuckAt(rel, trueRoot, w, NextBlock(rel, leftmost, w), steps)
  {
    hide CheckedWalk, HalfDeadTwice, StuckAt;
    w :| CheckedWalk(rel, 0, leftmost, trueRoot, w) &&
      (HalfDeadTwice(rel, w) || StuckAt(rel, trueRoot, w, NextBlock(rel, leftmost, w), |rel| + 1));
    if HalfDeadTwice(rel, w) {
      EndlessIff(rel, 0, leftmost, trueRoot);
      assert WalkOf(rel, 0, leftmost, trueRoot, steps + 1);
      w :| |w| == steps + 1 && CheckedWalk(rel, 0, leftmost, trueRoot, w);
    } else {
      StuckForever(rel, trueRoot, w, NextBlock(rel, leftmost, w), |rel| + 1, steps);
    }
  }

  /** No number of steps decides the circular index, although the circularity tests see nothing. */
  method CheckCircular(steps: nat) returns (v: Verdict)
    ensures v.OutOfSteps?
  {
    hide CheckedWalk, Accepted, TrueRoot, TreeReady;
    CircularWalk(steps + 1);
    ghost var w :| |w| == steps + 1 && CheckedWalk(CircularRel(), 0, 1, true, w);
    ghost var ts;
    v, ts := CheckEveryLevel(CircularRel(), 1, 0, steps, [w]);
  }
}
