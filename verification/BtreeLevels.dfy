/**
 Walking one level of a B-Tree (bt_check_level_from_leftmost in
 contrib/amcheck/verify_nbtree.c): what acceptance of the level establishes, and which levels
 are accepted.
 */
module BtreeLevels {
  import opened Wrappers
  import opened BtreePages
  import opened BtreeCheck
  import opened BtreeCircles
  import opened BtreeWalk

  /** All downlinks of a level, from left to right. */
  ghost function Downlinks(rel: Rel, walk: seq<nat>): seq<nat> {
    if walk == [] then []
    else
      var b := walk[|walk| - 1];
      Downlinks(rel, walk[..|walk| - 1]) +
      (if b in rel && !Ignore(rel[b]) && !rel[b].leaf then Links(rel[b], |Data(rel[b])|) else [])
  }

  /** A completed level. */
  ghost predicate LevelFine(rel: Rel, lvl: nat, leftmost: nat, walk: seq<nat>) {
    && walk != [] && Walking(rel, lvl, leftmost, walk)
    && walk[0] in rel && !Ignore(rel[walk[0]]) && NextOf(rel, walk[|walk| - 1]) == 0
  }

  /** The downlinks of a completed level thread the whole child level. */
  ghost predicate ChildLevelThreaded(rel: Rel, walk: seq<nat>, chain: seq<nat>, hits: seq<nat>) {
    NoZero(Downlinks(rel, walk)) ==>
      && Threaded(rel, chain, hits, Downlinks(rel, walk))
      && chain != [] && chain[|chain| - 1] in rel && rel[chain[|chain| - 1]].next == 0
  }

  lemma {:induction false} DownlinksGrow(rel: Rel, walk: seq<nat>, b: nat)
    requires b in rel
    ensures Downlinks(rel, walk + [b]) ==
            Downlinks(rel, walk) + (if !Ignore(rel[b]) && !rel[b].leaf then Links(rel[b], |Data(rel[b])|) else [])
  {
    assert (walk + [b])[..|walk|] == walk;
  }

  /** Where the next level starts, as the checker remembers it: not known before the first
      live page, which is the leftmost one. */
  ghost predicate NextKnown(rel: Rel, walk: seq<nat>, next: Option<nat>) {
    && (next.None? ==> forall i | 0 <= i < |walk| :: walk[i] in rel && Ignore(rel[walk[i]]))
    && (next.Some? ==>
          && walk != [] && walk[0] in rel && !Ignore(rel[walk[0]])
          && next.value == FirstLink(rel[walk[0]]))
  }

  /** The leftmost block one level down; none below a leaf. */
  function FirstLink(p: Page): nat {
    if p.leaf || Data(p) == [] then 0 else Data(p)[0].link
  }

  /** The child-level state while a level is walked: downlinks so far, and after the rightmost
      page of an internal level the completed chain. */
  ghost predicate Tracking(st: CheckState, walk: seq<nat>)
    reads st
  {
    && st.downs == Downlinks(st.rel, walk)
    && if walk != [] && walk[|walk| - 1] in st.rel && !Ignore(st.rel[walk[|walk| - 1]]) &&
          !st.rel[walk[|walk| - 1]].leaf && st.rel[walk[|walk| - 1]].next == 0
       then st.Finished() else st.Linked()
  }

  // ----- levels that are accepted -----

  /** The block right of the last child of a page. */
  ghost function RightOf(rel: Rel, b: nat): Option<nat> {
    if b in rel then After(rel, rel[b], |Data(rel[b])|, None) else None
  }

  lemma {:induction false} RightAfter(rel: Rel, b: nat, right: Option<nat>)
    requires b in rel
    ensures PageReady(rel, rel[b], right) && !rel[b].leaf ==>
              After(rel, rel[b], |Data(rel[b])|, right) == RightOf(rel, b)
  {
    hide Data, InOrder, CrossInOrder, ChildrenAgree, Reached;
  }

  /** A live page that agrees with its left neighbour and has all that acceptance establishes. */
  ghost predicate VisitReady(rel: Rel, lvl: nat, b: nat, left: nat, right: Option<nat>) {
    && Live(rel, b) && b != left && rel[b].prev == left && rel[b].level == lvl
    && PageReady(rel, rel[b], right)
  }

  ghost predicate ReadyAtIndex(rel: Rel, lvl: nat, w: seq<nat>, i: nat)
    requires i < |w|
  {
    && w[i] != 0
    && VisitReady(rel, lvl, w[i], if i == 0 then 0 else w[i - 1], if i == 0 then None else RightOf(rel, w[i - 1]))
    && NextOf(rel, w[i]) == if i + 1 < |w| then w[i + 1] else 0
  }

  /** A whole level of such pages. */
  ghost predicate LevelReady(rel: Rel, lvl: nat, w: seq<nat>) {
    w != [] && forall i | 0 <= i < |w| :: ReadyAtIndex(rel, lvl, w, i)
  }

  /** One page of the walk: `left` is the block before it, `next` where the next level starts. */
  method VisitPage(st: CheckState, lvl: nat, trueRoot: bool, b: nat, left: nat, next: Option<nat>, steps: nat,
                   ghost leftmost: nat, ghost walk: seq<nat>)
    returns (v: Verdict, next': Option<nat>)
    requires 0 !in st.rel && b != 0 && Loadable(st.rel, b)
    requires Walking(st.rel, lvl, leftmost, walk) && Tracking(st, walk) && NextKnown(st.rel, walk, next)
    requires if walk == [] then b == leftmost && left == 0
             else left == walk[|walk| - 1] && NextOf(st.rel, left) == b
    modifies st
    ensures st.lowkey == old(st.lowkey)
    ensures v.Accept? ==> Walking(st.rel, lvl, leftmost, walk + [b]) && Tracking(st, walk + [b])
    ensures v.Accept? ==> NextKnown(st.rel, walk + [b], next')
    ensures v.Accept? && (st.rel[b].next == 0 || !Ignore(st.rel[b])) ==> next'.Some?
    ensures v.Accept? && walk == [] && trueRoot && !Ignore(st.rel[b]) ==> st.rel[b].root
    ensures steps > 0 && VisitReady(st.rel, lvl, b, left, old(st.prevrightlink)) &&
            (next.None? ==> left == 0 && (trueRoot ==> st.rel[b].root)) ==>
              v.Accept? && (!st.rel[b].leaf && st.rel[b].next != 0 ==> st.prevrightlink == RightOf(st.rel, b))
    ensures lvl == 0 && PageFine(st.rel, lvl, walk + [b], |walk|) && FirstOk(st.rel, trueRoot, walk + [b]) ==>
              !v.Corrupt?
    ensures lvl == 0 && FirstOk(st.rel, trueRoot, walk) ==>
              (v.OutOfSteps? <==> StuckAt(st.rel, trueRoot, walk, b, steps))
    ensures Spacious(st.rel, steps) && v.OutOfSteps? ==> SkipCircle(st.rel)
  {
    hide LiveFine, Walking, Downlinks, Sane, InOrder, CrossInOrder, ChildrenAgree, Data, PageReady, SkipCircle, Spacious,
      FirstOk, Blind;
    var rel := st.rel;
    var page := rel[b];
    next' := next;
    ghost var fine := PageFine(rel, lvl, walk + [b], |walk|) && FirstOk(rel, trueRoot, walk + [b]);
    LiveFirst(rel, lvl, leftmost, trueRoot, walk, b, left, next);
    if fine {
      FineHere(rel, lvl, leftmost, trueRoot, walk, b, left, next);
    }
    StillLinked(st, lvl, leftmost, walk, b);
    DownlinksGrow(rel, walk, b);
    if Ignore(page) {
      if page.deleted {
        return Corrupt, next';
      }
      if page.next == 0 {
        return Corrupt, next';
      }
      if b != left && b != page.prev {
        WalkStep(rel, lvl, leftmost, walk, b);
      }
      assert NextKnown(rel, walk + [b], next) by { NextStays(rel, lvl, leftmost, walk, b, next); }
    } else {
      if next.None? {
        if page.prev != 0 {
          return Corrupt, next';
        }
        if trueRoot && !page.root {
          return Corrupt, next';
        }
        next' := Some(FirstLink(page));
      }
      if page.prev != left {
        return Corrupt, next';
      }
      if lvl != page.level {
        return Corrupt, next';
      }
      NextLive(rel, lvl, leftmost, walk, b, next, next');
      RightAfter(rel, b, st.prevrightlink);
      v := st.TargetPageCheck(page, steps);
      if !v.Accept? {
        return;
      }
      assert LiveFine(rel, lvl, page, left) by { ShowLive(rel, lvl, page, left); }
      if b != left && b != page.prev {
        WalkStep(rel, lvl, leftmost, walk, b);
      }
    }
    if b == left || b == page.prev {
      return Corrupt, next';
    }
    v := Accept;
  }

  /** The tests of a live page against the first page of the walk. */
  lemma {:induction false} LiveFirst(rel: Rel, lvl: nat, leftmost: nat, trueRoot: bool, walk: seq<nat>, b: nat, left: nat,
                                     next: Option<nat>)
    requires Walking(rel, lvl, leftmost, walk) && NextKnown(rel, walk, next) && Loadable(rel, b)
    requires left == if walk == [] then 0 else walk[|walk| - 1]
    ensures LeftIn(walk + [b], |walk|) == left
    ensures FirstOk(rel, trueRoot, walk) && !Ignore(rel[b]) && rel[b].prev == left ==>
              (FirstOk(rel, trueRoot, walk + [b]) <==> next.Some? || (rel[b].prev == 0 && (trueRoot ==> rel[b].root)))
    ensures lvl == 0 && !Ignore(rel[b]) && rel[b].level == lvl ==> rel[b].leaf
  {
    hide FirstLink, Walking;
    var w := walk + [b];
    assert w[|walk|] == b;
    if walk != [] {
      LastIn(rel, lvl, leftmost, walk);
      assert w[0] == walk[0];
      assert forall i | 0 <= i < |walk| :: w[i] == walk[i];
    }
  }

  /** What a walk that passes all tests says about its next page. */
  lemma {:induction false} FineHere(rel: Rel, lvl: nat, leftmost: nat, trueRoot: bool, walk: seq<nat>, b: nat, left: nat,
                                    next: Option<nat>)
    requires PageFine(rel, lvl, walk + [b], |walk|) && FirstOk(rel, trueRoot, walk + [b])
    requires NextKnown(rel, walk, next) && left == if walk == [] then 0 else walk[|walk| - 1]
    ensures b in rel && !rel[b].deleted && b != left && b != rel[b].prev && (rel[b].next == 0 ==> !Ignore(rel[b]))
    ensures !Ignore(rel[b]) ==>
              && rel[b].prev == left && rel[b].level == lvl && InOrder(rel[b]) && CrossInOrder(rel, rel[b])
              && (next.None? ==> left == 0 && (trueRoot ==> rel[b].root))
    ensures lvl == 0 && !Ignore(rel[b]) ==> rel[b].leaf
  {
    hide InOrder, CrossInOrder, ChildrenAgree, FirstLink;
    var w := walk + [b];
    assert w[|walk|] == b && LeftIn(w, |walk|) == left;
    if walk != [] {
      assert w[0] == walk[0];
    }
  }

  lemma {:induction false} ShowLive(rel: Rel, lvl: nat, p: Page, left: nat)
    requires p.prev == left && p.level == lvl && InOrder(p) && CrossInOrder(rel, p)
    requires !p.leaf ==> ChildrenAgree(rel, p)
    ensures LiveFine(rel, lvl, p, left)
  {
  }

  /** A page with a right neighbour is not the one after which the level is finished. */
  lemma {:induction false} StillLinked(st: CheckState, lvl: nat, leftmost: nat, walk: seq<nat>, b: nat)
    requires Tracking(st, walk) && b != 0 && (walk != [] ==> NextOf(st.rel, walk[|walk| - 1]) == b)
    ensures st.Linked() && st.downs == Downlinks(st.rel, walk)
  {
  }

  lemma {:induction false} NextStays(rel: Rel, lvl: nat, leftmost: nat, walk: seq<nat>, b: nat, next: Option<nat>)
    requires NextKnown(rel, walk, next) && b in rel && Ignore(rel[b])
    ensures NextKnown(rel, walk + [b], next)
  {
    hide FirstLink, Ignore;
  }

  /** The first live page is the first page: its left link is none, but agrees with the block
      before it. */
  lemma {:induction false} NextLive(rel: Rel, lvl: nat, leftmost: nat, walk: seq<nat>, b: nat, next: Option<nat>,
                                    next': Option<nat>)
    requires Walking(rel, lvl, leftmost, walk) && NextKnown(rel, walk, next) && b in rel && !Ignore(rel[b])
    requires rel[b].prev == if walk == [] then 0 else walk[|walk| - 1]
    requires next' == if next.None? then Some(FirstLink(rel[b])) else next
    requires next.None? ==> rel[b].prev == 0
    ensures NextKnown(rel, walk + [b], next')
  {
    hide FirstLink, Ignore, Walking;
    if walk != [] {
      LastIn(rel, lvl, leftmost, walk);
    }
  }

  lemma {:induction false} LevelStarts(st: CheckState, lvl: nat, leftmost: nat)
    requires st.prevrightlink.None? && !st.previncompletesplit && st.chain == [] && st.hits == [] && st.downs == []
    ensures Walking(st.rel, lvl, leftmost, []) && Tracking(st, []) && NextKnown(st.rel, [], None)
  {
  }

  /** The last page is live and, above the leaves, internal: the child level was read to its
      end. */
  lemma {:induction false} LevelEnds(st: CheckState, lvl: nat, leftmost: nat, walk: seq<nat>, next: Option<nat>)
    requires Walking(st.rel, lvl, leftmost, walk) && Tracking(st, walk) && NextKnown(st.rel, walk, next)
    requires walk != [] && next.Some? && NextOf(st.rel, walk[|walk| - 1]) == 0
    ensures LevelFine(st.rel, lvl, leftmost, walk) && walk[0] in st.rel && !Ignore(st.rel[walk[0]])
    ensures next == Some(FirstLink(st.rel[walk[0]]))
    ensures lvl > 0 ==> ChildLevelThreaded(st.rel, walk, st.chain, st.hits)
  {
    hide InOrder, CrossInOrder, ChildrenAgree, Skippable, FirstLink;
    var rel, last := st.rel, walk[|walk| - 1];
    assert PageFine(rel, lvl, walk, |walk| - 1);
    if lvl > 0 {
      assert !rel[last].leaf;
      assert |Links(rel[last], |Data(rel[last])|)| > 0;
      assert |Downlinks(rel, walk)| > 0;
      if NoZero(st.downs) {
        assert st.hits[0] < |st.chain|;
      }
    }
  }

  /** The walk follows a given sequence of blocks. */
  ghost predicate Following(rel: Rel, w: seq<nat>, walk: seq<nat>, current: nat, left: int, steps: nat) {
    && |walk| <= |w| && walk == w[..|walk|] && left == steps - |walk|
    && current == if |walk| < |w| then w[|walk|] else 0
  }

  /** Above the leaves the walk on the child level is right of the children read so far. */
  ghost predicate AtRight(rel: Rel, lvl: nat, walk: seq<nat>, right: Option<nat>) {
    lvl > 0 ==> right == if walk == [] then None else RightOf(rel, walk[|walk| - 1])
  }

  lemma {:induction false} FollowStart(rel: Rel, lvl: nat, w: seq<nat>, steps: nat)
    requires LevelReady(rel, lvl, w)
    ensures Following(rel, w, [], w[0], steps, steps) && AtRight(rel, lvl, [], None)
  {
  }

  lemma {:induction false} ReadyHere(rel: Rel, lvl: nat, w: seq<nat>, walk: seq<nat>, current: nat, left: nat,
                                     budget: int, steps: nat, right: Option<nat>)
    requires LevelReady(rel, lvl, w) && Following(rel, w, walk, current, budget, steps) && steps >= |w|
    requires current != 0 && AtRight(rel, lvl, walk, right)
    requires left == if walk == [] then 0 else walk[|walk| - 1]
    ensures budget > 0 && steps > 0 && Loadable(rel, current) && !Ignore(rel[current])
    ensures VisitReady(rel, lvl, current, left, right)
    ensures lvl > 0 ==> !rel[current].leaf
  {
    hide InOrder, CrossInOrder, ChildrenAgree, Reached, RightOf, Data;
    var i := |walk|;
    assert ReadyAtIndex(rel, lvl, w, i);
  }

  lemma {:induction false} FollowNext(rel: Rel, lvl: nat, w: seq<nat>, walk: seq<nat>, current: nat, budget: int,
                                      steps: nat, right: Option<nat>)
    requires LevelReady(rel, lvl, w) && Following(rel, w, walk, current, budget, steps) && current in rel
    requires current != 0 && (!rel[current].leaf && rel[current].next != 0 ==> right == RightOf(rel, current))
    requires lvl > 0 ==> !rel[current].leaf
    ensures Following(rel, w, walk + [current], rel[current].next, budget - 1, steps)
    ensures rel[current].next != 0 ==> AtRight(rel, lvl, walk + [current], right)
  {
    hide VisitReady, RightOf;
    assert ReadyAtIndex(rel, lvl, w, |walk|);
    if |walk| + 1 < |w| {
      assert ReadyAtIndex(rel, lvl, w, |walk| + 1);
    }
  }

  lemma {:induction false} FollowEnd(rel: Rel, lvl: nat, w: seq<nat>, walk: seq<nat>, budget: int, steps: nat)
    requires LevelReady(rel, lvl, w) && Following(rel, w, walk, 0, budget, steps)
    ensures walk == w
  {
    hide VisitReady, RightOf;
    assert |walk| < |w| ==> ReadyAtIndex(rel, lvl, w, |walk|);
  }

  /** The state of the walk before the next page. */
  ghost predicate AtPage(st: CheckState, lvl: nat, leftmost: nat, trueRoot: bool, walk: seq<nat>, current: nat,
                         left: nat, next: Option<nat>)
    reads st
  {
    && Walking(st.rel, lvl, leftmost, walk) && Tracking(st, walk) && NextKnown(st.rel, walk, next)
    && (if walk == [] then current == leftmost && left == 0
        else left == walk[|walk| - 1] && NextOf(st.rel, left) == current)
    && (walk != [] && current == 0 ==> next.Some?)
    && (walk != [] && trueRoot && walk[0] in st.rel && !Ignore(st.rel[walk[0]]) ==> st.rel[walk[0]].root)
  }

  /** The walk follows a level that has all that acceptance establishes. */
  ghost predicate OnTrack(st: CheckState, lvl: nat, trueRoot: bool, w: seq<nat>, walk: seq<nat>, current: nat,
                          budget: int, steps: nat, next: Option<nat>)
    reads st
  {
    && LevelReady(st.rel, lvl, w) && Following(st.rel, w, walk, current, budget, steps) && steps >= |w|
    && (walk != [] ==> next.Some?) && (current != 0 ==> AtRight(st.rel, lvl, walk, st.prevrightlink))
    && (trueRoot ==> w != [] && w[0] in st.rel && st.rel[w[0]].root)
  }

  /** One round of the loop over a level. */
  method StepRight(st: CheckState, lvl: nat, trueRoot: bool, current: nat, left: nat, next: Option<nat>, steps: nat,
                   ghost budget: nat, ghost leftmost: nat, ghost walk: seq<nat>, ghost w: seq<nat>)
    returns (v: Verdict, next': Option<nat>)
    requires 0 !in st.rel && current != 0 && AtPage(st, lvl, leftmost, trueRoot, walk, current, left, next)
    requires Loadable(st.rel, current)
    modifies st
    ensures v.Accept? ==>
              AtPage(st, lvl, leftmost, trueRoot, walk + [current], st.rel[current].next, current, next')
    ensures old(OnTrack(st, lvl, trueRoot, w, walk, current, budget, steps, next)) ==>
              v.Accept? &&
              OnTrack(st, lvl, trueRoot, w, walk + [current], st.rel[current].next, budget - 1, steps, next')
    ensures lvl == 0 && CheckedWalk(st.rel, lvl, leftmost, trueRoot, walk + [current]) ==> !v.Corrupt?
    ensures lvl == 0 ==> (v.OutOfSteps? <==> StuckAt(st.rel, trueRoot, walk, current, steps))
    ensures Spacious(st.rel, steps) && v.OutOfSteps? ==> SkipCircle(st.rel)
  {
    hide Spacious, SkipCircle, FirstOk, PageFine, StuckAt, Walking, Downlinks, Sane, Data, FirstLink, RightOf, LevelReady, VisitReady, Following, AtRight;
    ghost var ready := OnTrack(st, lvl, trueRoot, w, walk, current, budget, steps, next);
    if ready {
      ReadyHere(st.rel, lvl, w, walk, current, left, budget, steps, st.prevrightlink);
      FirstFollowed(st.rel, w, walk, current, budget, steps);
    }
    AtFirst(st, lvl, leftmost, trueRoot, walk, current, left, next);
    if CheckedWalk(st.rel, lvl, leftmost, trueRoot, walk + [current]) {
      LastFine(st.rel, lvl, leftmost, walk, current);
    }
    v, next' := VisitPage(st, lvl, trueRoot, current, left, next, steps, leftmost, walk);
    if !v.Accept? {
      return;
    }
    if ready {
      FollowNext(st.rel, lvl, w, walk, current, budget, steps, st.prevrightlink);
    }
    var page := st.rel[current];
    st.lowkey := if page.next != 0 && page.items != [] then Some(page.items[0].key) else None;
  }

  lemma {:induction false} AtFirst(st: CheckState, lvl: nat, leftmost: nat, trueRoot: bool, walk: seq<nat>, current: nat,
                                   left: nat, next: Option<nat>)
    requires AtPage(st, lvl, leftmost, trueRoot, walk, current, left, next)
    ensures CheckedWalk(st.rel, lvl, leftmost, trueRoot, walk)
    ensures current == NextBlock(st.rel, leftmost, walk)
  {
    hide Walking, Tracking, FirstLink, Ignore;
  }

  lemma {:induction false} LastFine(rel: Rel, lvl: nat, leftmost: nat, walk: seq<nat>, b: nat)
    requires Walking(rel, lvl, leftmost, walk + [b])
    ensures PageFine(rel, lvl, walk + [b], |walk|)
  {
    hide PageFine;
  }

  lemma {:induction false} FirstFollowed(rel: Rel, w: seq<nat>, walk: seq<nat>, current: nat, budget: int, steps: nat)
    requires Following(rel, w, walk, current, budget, steps) && current != 0
    ensures walk == [] ==> w != [] && current == w[0]
  {
  }

  lemma {:induction false} WalkBegins(st: CheckState, lvl: nat, leftmost: nat, trueRoot: bool, w: seq<nat>, steps: nat)
    requires st.prevrightlink.None? && !st.previncompletesplit && st.chain == [] && st.hits == [] && st.downs == []
    ensures AtPage(st, lvl, leftmost, trueRoot, [], leftmost, 0, None)
    ensures ReadyFrom(st.rel, lvl, leftmost, trueRoot, w, steps) ==>
              OnTrack(st, lvl, trueRoot, w, [], leftmost, steps, steps, None)
  {
    hide LevelReady;
    LevelStarts(st, lvl, leftmost);
    if ReadyFrom(st.rel, lvl, leftmost, trueRoot, w, steps) {
      FollowStart(st.rel, lvl, w, steps);
    }
  }

  /** A level that has all that acceptance establishes, with enough steps to walk it. */
  ghost predicate ReadyFrom(rel: Rel, lvl: nat, leftmost: nat, trueRoot: bool, w: seq<nat>, steps: nat) {
    && LevelReady(rel, lvl, w) && w != [] && w[0] == leftmost && steps >= |w|
    && (trueRoot ==> leftmost in rel && rel[leftmost].root)
  }

  lemma {:induction false} WalkDone(st: CheckState, lvl: nat, leftmost: nat, trueRoot: bool, walk: seq<nat>, left: nat,
                                    next: Option<nat>)
    requires AtPage(st, lvl, leftmost, trueRoot, walk, 0, left, next) && leftmost != 0
    ensures LevelFine(st.rel, lvl, leftmost, walk) && next == Some(FirstLink(st.rel[walk[0]]))
    ensures lvl > 0 ==> ChildLevelThreaded(st.rel, walk, st.chain, st.hits)
    ensures trueRoot ==> st.rel[walk[0]].root
  {
    hide Walking, Tracking, NextKnown, ChildLevelThreaded;
    LevelEnds(st, lvl, leftmost, walk, next);
  }

  /** bt_check_level_from_leftmost: all pages of a level from left to right. A level that has
      what acceptance establishes is accepted. With more steps than the index has blocks the
      check decides, unless the walk met a half-dead page twice or the child level, or the
      right siblings of a page, form a circle; and on the leaf level it runs out of steps on
      every walk that passes its tests and is longer or gets stuck. */
  method CheckLevel(st: CheckState, lvl: nat, leftmost: nat, trueRoot: bool, steps: nat, ghost w: seq<nat>)
    returns (v: Verdict, next: Option<nat>, ghost walk: seq<nat>)
    requires 0 !in st.rel && leftmost != 0
    modifies st
    ensures v.Accept? ==> LevelFine(st.rel, lvl, leftmost, walk) && next == Some(FirstLink(st.rel[walk[0]]))
    ensures v.Accept? && lvl > 0 ==> ChildLevelThreaded(st.rel, walk, st.chain, st.hits)
    ensures v.Accept? && trueRoot ==> st.rel[walk[0]].root
    ensures ReadyFrom(st.rel, lvl, leftmost, trueRoot, w, steps) ==> v.Accept? && walk == w
    ensures Spacious(st.rel, steps) && v.OutOfSteps? ==>
              || SkipCircle(st.rel)
              || (CheckedWalk(st.rel, lvl, leftmost, trueRoot, walk) && |walk| == steps && HalfDeadTwice(st.rel, walk))
    ensures lvl == 0 && Spacious(st.rel, steps) && v.OutOfSteps? ==>
              CheckedWalk(st.rel, lvl, leftmost, trueRoot, walk) &&
              (HalfDeadTwice(st.rel, walk) ||
               StuckAt(st.rel, trueRoot, walk, NextBlock(st.rel, leftmost, walk), steps))
    ensures (&& lvl == 0 && CheckedWalk(st.rel, lvl, leftmost, trueRoot, w)
             && (|w| > steps || StuckAt(st.rel, trueRoot, w, NextBlock(st.rel, leftmost, w), steps))) ==> v.OutOfSteps?
  {
    hide AtPage, OnTrack, LevelFine, ChildLevelThreaded, FirstLink, ReadyFrom, Sane, Spacious, SkipCircle, HalfDeadTwice,
      CheckedWalk, Walking, StuckAt;
    ghost var after := NextBlock(st.rel, leftmost, w);
    ghost var endless := lvl == 0 && CheckedWalk(st.rel, lvl, leftmost, trueRoot, w) &&
                         (|w| > steps || StuckAt(st.rel, trueRoot, w, after, steps));
    if endless {
      CheckedFirst(st.rel, lvl, leftmost, trueRoot, w);
    }
    ghost var ready := ReadyFrom(st.rel, lvl, leftmost, trueRoot, w, steps);
    st.prevrightlink, st.previncompletesplit, st.lowkey := None, false, None;
    st.chain, st.hits, st.downs := [], [], [];
    walk, next := [], None;
    var current: nat, leftcurrent: nat, budget := leftmost, 0, steps;
    WalkBegins(st, lvl, leftmost, trueRoot, w, steps);
    while current != 0
      invariant AtPage(st, lvl, leftmost, trueRoot, walk, current, leftcurrent, next)
      invariant ready ==> OnTrack(st, lvl, trueRoot, w, walk, current, budget, steps, next)
      invariant |walk| == steps - budget
      invariant endless ==> |walk| <= |w| && walk == w[..|walk|] && current == (w + [after])[|walk|] && current != 0
      decreases budget
    {
      if ready {
        TrackGoesOn(st, lvl, trueRoot, w, walk, current, budget, steps, next);
      }
      if budget == 0 {
        if Spacious(st.rel, steps) {
          TooLong(st, lvl, leftmost, trueRoot, walk, current, leftcurrent, next, steps);
        }
        return OutOfSteps, next, walk;
      }
      AtFirst(st, lvl, leftmost, trueRoot, walk, current, leftcurrent, next);
      if endless {
        if |walk| == |w| {
          assert walk == w;
          StuckLoadable(st.rel, trueRoot, walk, current, steps);
        } else {
          CheckedNext(st.rel, leftmost, trueRoot, w, walk, current, steps);
        }
      }
      if !Loadable(st.rel, current) {
        return Corrupt, next, walk;
      }
      v, next := StepRight(st, lvl, trueRoot, current, leftcurrent, next, steps, budget, leftmost, walk, w);
      if !v.Accept? {
        return;
      }
      walk := walk + [current];
      leftcurrent, current, budget := current, st.rel[current].next, budget - 1;
    }
    WalkDone(st, lvl, leftmost, trueRoot, walk, leftcurrent, next);
    if ready {
      TrackEnds(st, lvl, trueRoot, w, walk, budget, steps, next);
    }
    v := Accept;
  }

  /** A walk longer than the index has blocks. */
  lemma {:induction false} TooLong(st: CheckState, lvl: nat, leftmost: nat, trueRoot: bool, walk: seq<nat>, current: nat,
                                   left: nat, next: Option<nat>, steps: nat)
    requires AtPage(st, lvl, leftmost, trueRoot, walk, current, left, next) && Spacious(st.rel, steps) && |walk| == steps
    ensures CheckedWalk(st.rel, lvl, leftmost, trueRoot, walk) && HalfDeadTwice(st.rel, walk)
  {
    hide Walking, Tracking, HalfDeadTwice, FirstLink, Ignore;
    WalkIsBounded(st.rel, lvl, leftmost, walk);
  }

  lemma {:induction false} CheckedFirst(rel: Rel, lvl: nat, leftmost: nat, trueRoot: bool, w: seq<nat>)
    requires CheckedWalk(rel, lvl, leftmost, trueRoot, w)
    ensures (w + [NextBlock(rel, leftmost, w)])[0] == leftmost
  {
    hide PageFine;
  }

  lemma {:induction false} StuckLoadable(rel: Rel, trueRoot: bool, walk: seq<nat>, b: nat, steps: nat)
    requires StuckAt(rel, trueRoot, walk, b, steps)
    ensures Loadable(rel, b)
  {
  }

  /** The walk so far and its next page pass all tests, and there is a page after it. */
  lemma {:induction false} CheckedNext(rel: Rel, leftmost: nat, trueRoot: bool, w: seq<nat>, walk: seq<nat>,
                                       current: nat, steps: nat)
    requires CheckedWalk(rel, 0, leftmost, trueRoot, w) && |walk| < |w|
    requires walk == w[..|walk|] && current == w[|walk|]
    requires |walk| + 1 < |w| || StuckAt(rel, trueRoot, w, NextBlock(rel, leftmost, w), steps)
    ensures CheckedWalk(rel, 0, leftmost, trueRoot, walk + [current]) && Loadable(rel, current)
    ensures walk + [current] == w[..|walk| + 1]
    ensures rel[current].next == (w + [NextBlock(rel, leftmost, w)])[|walk| + 1] && rel[current].next != 0
  {
    hide LiveFine, Sane, FirstOk, InOrder, Blind, Data;
    var n := |walk| + 1;
    var part := w[..n];
    assert part == walk + [current];
    WalkPrefix(rel, 0, leftmost, w, n);
    assert forall k | 0 <= k < n :: w[k] == part[k];
    FirstStays(rel, trueRoot, w, part);
    assert PageFine(rel, 0, w, n - 1);
    if n < |w| {
      assert PageFine(rel, 0, w, n) && LinkAt(rel, w, n);
    }
  }

  lemma {:induction false} TrackGoesOn(st: CheckState, lvl: nat, trueRoot: bool, w: seq<nat>, walk: seq<nat>, current: nat,
                                       budget: int, steps: nat, next: Option<nat>)
    requires OnTrack(st, lvl, trueRoot, w, walk, current, budget, steps, next) && current != 0
    ensures budget > 0 && Loadable(st.rel, current)
  {
    hide VisitReady;
    assert ReadyAtIndex(st.rel, lvl, w, |walk|);
    LoadableReady(st.rel, lvl, w, |walk|);
  }

  lemma {:induction false} LoadableReady(rel: Rel, lvl: nat, w: seq<nat>, i: nat)
    requires i < |w| && ReadyAtIndex(rel, lvl, w, i)
    ensures Loadable(rel, w[i])
  {
  }

  lemma {:induction false} TrackEnds(st: CheckState, lvl: nat, trueRoot: bool, w: seq<nat>, walk: seq<nat>, budget: int,
                                     steps: nat, next: Option<nat>)
    requires OnTrack(st, lvl, trueRoot, w, walk, 0, budget, steps, next)
    ensures walk == w
  {
    hide LevelReady, AtRight;
    FollowEnd(st.rel, lvl, w, walk, budget, steps);
  }
}
