/**
 Searches in an accepted tree (contrib/amcheck/verify_nbtree.c). Upper bounds carry over from a
 leaf to all its ancestors; lower bounds do not, because the first downlink of an internal
 page has no key. So a search from the root takes the route to an item exactly when the item
 is above the downlink keys at the hops that lead to such a first downlink.
 */
module BtreeSearch {
  import opened BtreePages
  import opened BtreeCheck
  import opened BtreeWalk
  import opened BtreeLevels
  import opened BtreeTree

  /** A block and the position taken in it. */
  datatype Hop = Hop(block: nat, d: nat)

  ghost predicate OnRoute(rel: Rel, ts: seq<Trace>, hops: seq<Hop>, k: nat)
    requires k < |hops| == |ts|
  {
    && hops[k].block in ts[k].walk && hops[k].block in rel && hops[k].d < |Data(rel[hops[k].block])|
    && (k + 1 < |hops| ==> Data(rel[hops[k].block])[hops[k].d].link == hops[k + 1].block)
  }

  /** A route from the top level to an item of a leaf. */
  ghost predicate Route(rel: Rel, ts: seq<Trace>, hops: seq<Hop>) {
    && |hops| == |ts| > 0
    && (forall k | 0 <= k < |hops| :: OnRoute(rel, ts, hops, k))
    && (var b := hops[|hops| - 1].block; b in rel && rel[b].leaf)
  }

  ghost function ItemKey(rel: Rel, ts: seq<Trace>, hops: seq<Hop>): int
    requires Route(rel, ts, hops)
  {
    assert OnRoute(rel, ts, hops, |hops| - 1);
    Data(rel[hops[|hops| - 1].block])[hops[|hops| - 1].d].key
  }

  ghost predicate NoZeroLevels(rel: Rel, ts: seq<Trace>) {
    forall k | 0 <= k < |ts| :: NoZero(Downlinks(rel, ts[k].walk))
  }

  ghost predicate QuietLevels(rel: Rel, ts: seq<Trace>) {
    forall k | 0 <= k < |ts| :: Quiet(rel, ts[k].walk)
  }

  /** Without zero downlinks the levels go down to the leaves. */
  lemma {:induction false} AllLevels(rel: Rel, top: nat, root: nat, ts: seq<Trace>)
    requires Accepted(rel, top, root, ts) && NoZeroLevels(rel, ts) && root != 0
    ensures |ts| == top + 1
  {
    hide LevelAccepted, Downlinks, NoZero;
    var t, lvl := ts[|ts| - 1], top - (|ts| - 1);
    if lvl > 0 {
      FirstDownlink(rel, lvl, t);
      NotZero(Downlinks(rel, t.walk), 0);
    }
  }

  /** x is at most the high key, if there is one. */
  ghost predicate UnderHighKey(p: Page, x: int) {
    p.next != 0 ==> p.items != [] && x <= p.items[0].key
  }

  ghost predicate UnderLaterKeys(p: Page, d: nat, x: int) {
    forall e | d < e < |Data(p)| :: x <= Data(p)[e].key
  }

  /** One step up: a bound on the child is a bound on the parent. */
  lemma {:induction false} StepUp(p: Page, d: nat, child: Page, x: int)
    requires d < |Data(p)| && InOrder(p) && !p.leaf && UnderHighKey(child, x)
    requires p.next != 0 ==> p.items != []
    requires child.next != 0 ==> child.items != [] && Separates(p, d, child.items[0].key)
    requires d + 1 < |Data(p)| || p.next != 0 ==> child.next != 0
    ensures UnderHighKey(p, x) && UnderLaterKeys(p, d, x)
  {
    hide Data, InOrder;
    forall e | d < e < |Data(p)|
      ensures x <= Data(p)[e].key
    {
      if e > d + 1 {
        KeysIncrease(p, d + 1, e);
      }
    }
    if p.next != 0 && d + 1 < |Data(p)| {
      BelowHighKey(p, d + 1);
    }
  }

  /** Upper bounds hold along the whole route. */
  lemma {:induction false} RouteUpper(rel: Rel, top: nat, root: nat, ts: seq<Trace>, hops: seq<Hop>, k: nat)
    requires Accepted(rel, top, root, ts) && QuietLevels(rel, ts) && NoZeroLevels(rel, ts)
    requires Route(rel, ts, hops) && root != 0
    requires k < |hops| && hops[k].block in rel
    ensures UnderHighKey(rel[hops[k].block], ItemKey(rel, ts, hops))
    ensures k + 1 < |hops| ==> UnderLaterKeys(rel[hops[k].block], hops[k].d, ItemKey(rel, ts, hops))
    decreases |hops| - k
  {
    hide InOrder, Data, Downlinks, LevelAccepted, Quiet, NoZero, UnderHighKey, UnderLaterKeys, Separates, ChildrenAgree;
    AllLevels(rel, top, root, ts);
    var x := ItemKey(rel, ts, hops);
    assert OnRoute(rel, ts, hops, k);
    var p, lvl := rel[hops[k].block], top - k;
    var j :| 0 <= j < |ts[k].walk| && ts[k].walk[j] == hops[k].block;
    PageOfLevel(rel, lvl, ts[k], j);
    SaneItems(rel, lvl, ts[k], j);
    if k + 1 == |hops| {
      LeafUpper(p, hops[k].d);
    } else {
      RouteStep(rel, top, root, ts, hops, k, j);
    }
  }

  lemma {:induction false} SaneItems(rel: Rel, lvl: nat, t: Trace, j: nat)
    requires LevelAccepted(rel, lvl, t) && j < |t.walk| && t.walk[j] in rel
    ensures rel[t.walk[j]].next != 0 ==> rel[t.walk[j]].items != []
  {
    hide LiveFine, ChildLevelThreaded;
    assert PageFine(rel, lvl, t.walk, j);
  }

  lemma {:induction false} LeafUpper(p: Page, i: nat)
    requires InOrder(p) && p.leaf && i < |Data(p)| && (p.next != 0 ==> p.items != [])
    ensures UnderHighKey(p, Data(p)[i].key)
  {
    if p.next != 0 {
      BelowHighKey(p, i);
    }
  }

  lemma {:induction false} RouteStep(rel: Rel, top: nat, root: nat, ts: seq<Trace>, hops: seq<Hop>, k: nat, j: nat)
    requires Accepted(rel, top, root, ts) && QuietLevels(rel, ts) && NoZeroLevels(rel, ts)
    requires Route(rel, ts, hops) && root != 0
    requires k + 1 < |hops| && j < |ts[k].walk| && ts[k].walk[j] == hops[k].block && hops[k].block in rel
    ensures UnderHighKey(rel[hops[k].block], ItemKey(rel, ts, hops))
    ensures UnderLaterKeys(rel[hops[k].block], hops[k].d, ItemKey(rel, ts, hops))
    decreases |hops| - k, 0
  {
    hide InOrder, Data, Downlinks, LevelAccepted, Quiet, NoZero, UnderHighKey, UnderLaterKeys, Separates, ChildrenAgree;
    AllLevels(rel, top, root, ts);
    assert OnRoute(rel, ts, hops, k) && OnRoute(rel, ts, hops, k + 1);
    var p, lvl := rel[hops[k].block], top - k;
    PageOfLevel(rel, lvl, ts[k], j);
    SaneItems(rel, lvl, ts[k], j);
    ChildFacts(rel, lvl, ts[k], ts[k + 1], j, hops[k].d);
    RouteUpper(rel, top, root, ts, hops, k + 1);
    StepUp(p, hops[k].d, rel[hops[k + 1].block], ItemKey(rel, ts, hops));
  }

  /** The key of the downlink taken at step k is below x, or the downlink has no key. */
  ghost predicate AboveDownlink(rel: Rel, hops: seq<Hop>, k: nat, x: int)
    requires k < |hops|
  {
    var h := hops[k];
    h.block in rel && h.d < |Data(rel[h.block])| && (h.d == 0 || Data(rel[h.block])[h.d].key < x)
  }

  /** Where acceptance gives no lower bound: a real downlink leads to an internal page in which
      the route goes on through the first downlink, which has no key of its own. */
  ghost predicate CousinHop(hops: seq<Hop>, k: nat) {
    k + 2 < |hops| && hops[k].d > 0 && hops[k + 1].d == 0
  }

  ghost predicate AboveCousins(rel: Rel, hops: seq<Hop>, x: int) {
    forall k | 0 <= k < |hops| && CousinHop(hops, k) :: AboveDownlink(rel, hops, k, x)
  }

  /** Every downlink key on the route is below the item when the keys at the cousin hops are:
      elsewhere the check compared the key with the next one on the route, or with the item. */
  lemma {:induction false} RouteLower(rel: Rel, top: nat, root: nat, ts: seq<Trace>, hops: seq<Hop>, k: nat)
    requires Accepted(rel, top, root, ts) && QuietLevels(rel, ts) && NoZeroLevels(rel, ts) && Route(rel, ts, hops)
    requires root != 0 && k + 1 < |hops| && AboveCousins(rel, hops, ItemKey(rel, ts, hops))
    ensures AboveDownlink(rel, hops, k, ItemKey(rel, ts, hops))
    decreases |hops| - k
  {
    hide InOrder, Data, Downlinks, LevelAccepted, Quiet, NoZero, Separates, ChildrenAgree, BoundedBelow;
    AllLevels(rel, top, root, ts);
    var x := ItemKey(rel, ts, hops);
    assert OnRoute(rel, ts, hops, k) && OnRoute(rel, ts, hops, k + 1);
    var h, next := hops[k], hops[k + 1];
    if h.d > 0 && !CousinHop(hops, k) {
      var j :| 0 <= j < |ts[k].walk| && ts[k].walk[j] == h.block;
      ChildFacts(rel, top - k, ts[k], ts[k + 1], j, h.d);
      if k + 2 < |hops| {
        RouteLower(rel, top, root, ts, hops, k + 1);
      }
      AboveItem(rel[next.block], Data(rel[h.block])[h.d].key, next.d);
    }
  }

  lemma {:induction false} AboveItem(child: Page, key: int, d: nat)
    requires BoundedBelow(child, key) && Real(child, d)
    ensures key < Data(child)[d].key
  {
  }

  /** The search from the root takes the route to an item if and only if the item is above the
      downlink keys at the cousin hops of the route. */
  lemma {:induction false} SearchTakesRoute(rel: Rel, top: nat, root: nat, ts: seq<Trace>, hops: seq<Hop>)
    requires Accepted(rel, top, root, ts) && QuietLevels(rel, ts) && NoZeroLevels(rel, ts)
    requires Route(rel, ts, hops) && root != 0
    ensures var x := ItemKey(rel, ts, hops);
            (forall k | 0 <= k < |hops| - 1 :: hops[k].block in rel && LastBelow(rel[hops[k].block], hops[k].d, x)) <==>
            AboveCousins(rel, hops, x)
  {
    hide Data, Accepted, QuietLevels, NoZeroLevels, ItemKey;
    var x := ItemKey(rel, ts, hops);
    forall k | 0 <= k < |hops| - 1
      ensures hops[k].block in rel
      ensures LastBelow(rel[hops[k].block], hops[k].d, x) <==> AboveDownlink(rel, hops, k, x)
    {
      assert OnRoute(rel, ts, hops, k);
      RouteUpper(rel, top, root, ts, hops, k);
    }
    if AboveCousins(rel, hops, x) {
      forall k | 0 <= k < |hops| - 1
        ensures AboveDownlink(rel, hops, k, x)
      {
        RouteLower(rel, top, root, ts, hops, k);
      }
    }
  }

  /** A route without a cousin hop is always taken; so is every route in a tree of two levels. */
  lemma {:induction false} PlainRouteIsTaken(rel: Rel, top: nat, root: nat, ts: seq<Trace>, hops: seq<Hop>, k: nat)
    requires Accepted(rel, top, root, ts) && QuietLevels(rel, ts) && NoZeroLevels(rel, ts)
    requires Route(rel, ts, hops) && root != 0
    requires (forall m | 0 <= m < |hops| :: !CousinHop(hops, m)) || top <= 1
    requires k + 1 < |hops|
    ensures hops[k].block in rel && LastBelow(rel[hops[k].block], hops[k].d, ItemKey(rel, ts, hops))
  {
    hide Data, QuietLevels, NoZeroLevels, ItemKey, LastBelow;
    AllLevels(rel, top, root, ts);
    SearchTakesRoute(rel, top, root, ts, hops);
    assert AboveCousins(rel, hops, ItemKey(rel, ts, hops));
  }

  // ----- the condition can fail -----

  function Internal3(next: nat, prev: nat, level: nat, root: bool, items: seq<Item>): Page {
    Page(false, root, false, false, false, prev, next, level, items)
  }

  function Leaf3(next: nat, prev: nat, items: seq<Item>): Page {
    Page(true, false, false, false, false, prev, next, 0, items)
  }

  /** Three levels: the leaf of block 6 holds 8 although the root separates at 10. */
  function CousinRel(): Rel {
    map[1 := Internal3(0, 0, 2, true, [Item(0, 2), Item(10, 3)]),
        2 := Internal3(3, 0, 1, false, [Item(10, 0), Item(0, 4), Item(5, 5)]),
        3 := Internal3(0, 2, 1, false, [Item(0, 6), Item(15, 7)]),
        4 := Leaf3(5, 0, [Item(5, 0), Item(1, 0)]),
        5 := Leaf3(6, 4, [Item(10, 0), Item(7, 0)]),
        6 := Leaf3(7, 5, [Item(15, 0), Item(8, 0)]),
        7 := Leaf3(0, 6, [Item(20, 0)])]
  }

  lemma {:induction false} CousinData()
    ensures var rel := CousinRel();
            && Data(rel[1]) == [Item(0, 2), Item(10, 3)] && Data(rel[2]) == [Item(0, 4), Item(5, 5)]
            && Data(rel[3]) == [Item(0, 6), Item(15, 7)] && Data(rel[4]) == [Item(1, 0)]
            && Data(rel[5]) == [Item(7, 0)] && Data(rel[6]) == [Item(8, 0)] && Data(rel[7]) == [Item(20, 0)]
  {
  }

  /** A live right sibling is the first live page to the right. */
  lemma {:induction false} CrossNext(rel: Rel, p: Page)
    requires p.next != 0 ==> Loadable(rel, p.next) && !Ignore(rel[p.next]) && BelowFirst(p, rel[p.next])
    ensures CrossInOrder(rel, p)
  {
    if p.next != 0 {
      assert RightPath(rel, p.next, [p.next]);
    }
  }

  lemma {:induction false} CousinCross()
    ensures var rel := CousinRel(); forall b | b in rel :: CrossInOrder(rel, rel[b])
  {
    CousinData();
    hide Data, CrossInOrder;
    var rel := CousinRel();
    forall b | b in rel
      ensures CrossInOrder(rel, rel[b])
    {
      CrossNext(rel, rel[b]);
    }
  }

  lemma {:induction false} CousinPages()
    ensures var rel := CousinRel();
            && LiveFine(rel, 2, rel[1], 0) && LiveFine(rel, 1, rel[2], 0) && LiveFine(rel, 1, rel[3], 2)
            && LiveFine(rel, 0, rel[4], 0) && LiveFine(rel, 0, rel[5], 4)
            && LiveFine(rel, 0, rel[6], 5) && LiveFine(rel, 0, rel[7], 6)
  {
    CousinCross();
    CousinData();
    hide Data, CrossInOrder;
    var rel := CousinRel();
    assert LiveFine(rel, 0, rel[4], 0);
    assert LiveFine(rel, 0, rel[5], 4);
    assert LiveFine(rel, 0, rel[6], 5);
    assert LiveFine(rel, 0, rel[7], 6);
    assert LiveFine(rel, 2, rel[1], 0);
    assert LiveFine(rel, 1, rel[2], 0);
    assert LiveFine(rel, 1, rel[3], 2);
  }

  function CousinLevels(): seq<Trace> {
    [Trace(1, [1], [2, 3], [0, 1]), Trace(2, [2, 3], [4, 5, 6, 7], [0, 1, 2, 3]), Trace(4, [4, 5, 6, 7], [], [])]
  }

  lemma {:induction false} CousinWalks()
    ensures var rel := CousinRel();
            LevelFine(rel, 2, 1, [1]) && LevelFine(rel, 1, 2, [2, 3]) && LevelFine(rel, 0, 4, [4, 5, 6, 7])
  {
    hide LiveFine;
    var rel := CousinRel();
    CousinPages();
    assert PageFine(rel, 2, [1], 0);
    var w: seq<nat> := [2, 3];
    assert PageFine(rel, 1, w, 0) && PageFine(rel, 1, w, 1) && LinkAt(rel, w, 1);
    var ls: seq<nat> := [4, 5, 6, 7];
    assert PageFine(rel, 0, ls, 0) && PageFine(rel, 0, ls, 1) && PageFine(rel, 0, ls, 2) && PageFine(rel, 0, ls, 3);
    assert LinkAt(rel, ls, 1) && LinkAt(rel, ls, 2) && LinkAt(rel, ls, 3);
  }

  lemma {:induction false} DownlinksOfTwo(rel: Rel, a: nat, b: nat)
    requires a in rel && !Ignore(rel[a]) && !rel[a].leaf && b in rel && !Ignore(rel[b]) && !rel[b].leaf
    ensures Downlinks(rel, [a]) == Links(rel[a], |Data(rel[a])|)
    ensures Downlinks(rel, [a, b]) == Links(rel[a], |Data(rel[a])|) + Links(rel[b], |Data(rel[b])|)
  {
    hide Data;
    DownlinksGrow(rel, [], a);
    assert [] + [a] == [a];
    DownlinksGrow(rel, [a], b);
    assert [a] + [b] == [a, b];
  }

  lemma {:induction false} LeavesHaveNone(rel: Rel, walk: seq<nat>)
    requires forall i | 0 <= i < |walk| :: walk[i] in rel && rel[walk[i]].leaf
    ensures Downlinks(rel, walk) == []
  {
    if walk != [] {
      LeavesHaveNone(rel, walk[..|walk| - 1]);
    }
  }

  lemma {:induction false} CousinDownlinks()
    ensures Downlinks(CousinRel(), [1]) == [2, 3] && Downlinks(CousinRel(), [2, 3]) == [4, 5, 6, 7]
    ensures Downlinks(CousinRel(), [4, 5, 6, 7]) == []
  {
    hide Downlinks, Data;
    CousinData();
    var rel := CousinRel();
    DownlinksOfTwo(rel, 1, 1);
    DownlinksOfTwo(rel, 2, 3);
    LeavesHaveNone(rel, [4, 5, 6, 7]);
  }

  lemma {:induction false} CousinThreads()
    ensures var rel := CousinRel();
            ChildLevelThreaded(rel, [1], [2, 3], [0, 1]) && ChildLevelThreaded(rel, [2, 3], [4, 5, 6, 7], [0, 1, 2, 3])
  {
    hide Skippable, Downlinks, Chain, NoZero;
    CousinDownlinks();
    CousinChains();
    var rel := CousinRel();
    AllHit(rel, [2, 3], [0, 1]);
    AllHit(rel, [4, 5, 6, 7], [0, 1, 2, 3]);
  }

  lemma {:induction false} CousinChains()
    ensures Chain(CousinRel(), [2, 3]) && Chain(CousinRel(), [4, 5, 6, 7])
  {
    var rel := CousinRel();
    var w: seq<nat>, ls: seq<nat> := [2, 3], [4, 5, 6, 7];
    assert LinkAt(rel, w, 1) && LinkAt(rel, ls, 1) && LinkAt(rel, ls, 2) && LinkAt(rel, ls, 3);
  }

  /** Every page of a chain has a downlink. */
  lemma {:induction false} AllHit(rel: Rel, cs: seq<nat>, hits: seq<nat>)
    requires Chain(rel, cs) && |hits| == |cs| && forall k | 0 <= k < |cs| :: hits[k] == k
    ensures Threaded(rel, cs, hits, cs)
  {
    hide Chain, Skippable;
    forall i | 0 <= i < |cs|
      ensures i in hits
    {
      assert hits[i] == i;
    }
  }

  /** An accepted quiet tree in which the search from the root misses an item of a leaf: the
      first downlink of the item's parent gives no lower bound. */
  lemma {:induction false} CousinMissed()
    ensures var rel, ts := CousinRel(), CousinLevels(); var hops := [Hop(1, 1), Hop(3, 0), Hop(6, 0)];
            && Accepted(rel, 2, 1, ts) && QuietLevels(rel, ts) && NoZeroLevels(rel, ts) && Route(rel, ts, hops)
            && ItemKey(rel, ts, hops) == 8 && CousinHop(hops, 0) && !LastBelow(rel[1], 1, 8) && LastBelow(rel[1], 0, 8)
  {
    hide Data, Accepted, Quiet, Route, LastBelow, Downlinks, NoZero, QuietLevels, NoZeroLevels;
    CousinAccepted();
    CousinQuiet();
    CousinRoute();
  }

  lemma {:induction false} CousinAccepted()
    ensures Accepted(CousinRel(), 2, 1, CousinLevels())
  {
    hide LevelFine, ChildLevelThreaded, Downlinks, Data;
    CousinData();
    CousinWalks();
    CousinThreads();
    var rel, ts := CousinRel(), CousinLevels();
    assert LevelAccepted(rel, 2, ts[0]) && LevelAccepted(rel, 1, ts[1]) && LevelAccepted(rel, 0, ts[2]);
  }

  lemma {:induction false} CousinQuiet()
    ensures QuietLevels(CousinRel(), CousinLevels()) && NoZeroLevels(CousinRel(), CousinLevels())
  {
    hide Downlinks;
    CousinDownlinks();
  }

  lemma {:induction false} CousinRoute()
    ensures var rel, ts := CousinRel(), CousinLevels(); var hops := [Hop(1, 1), Hop(3, 0), Hop(6, 0)];
            && Route(rel, ts, hops) && ItemKey(rel, ts, hops) == 8
            && CousinHop(hops, 0) && !LastBelow(rel[1], 1, 8) && LastBelow(rel[1], 0, 8)
  {
    hide Data;
    CousinData();
    var rel, ts := CousinRel(), CousinLevels();
    var hops := [Hop(1, 1), Hop(3, 0), Hop(6, 0)];
    assert OnRoute(rel, ts, hops, 0) && OnRoute(rel, ts, hops, 1) && OnRoute(rel, ts, hops, 2);
  }
}
