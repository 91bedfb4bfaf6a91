/**
 The whole check (bt_check_every_level in contrib/amcheck/verify_nbtree.c) and what an accepted
 tree guarantees: separator keys lead to the right child, and downlinks thread the child level.
 */
module BtreeTree {
  import opened Wrappers
  import opened BtreePages
  import opened BtreeCheck
  import opened BtreeCircles
  import opened BtreeWalk
  import opened BtreeLevels

  /** The blocks of one level and of the child level under it, as the check read them. */
  datatype Trace = Trace(leftmost: nat, walk: seq<nat>, chain: seq<nat>, hits: seq<nat>)

  ghost predicate LevelAccepted(rel: Rel, lvl: nat, t: Trace) {
    LevelFine(rel, lvl, t.leftmost, t.walk) && (lvl > 0 ==> ChildLevelThreaded(rel, t.walk, t.chain, t.hits))
  }

  ghost function Below(rel: Rel, t: Trace): nat {
    if t.walk != [] && t.walk[0] in rel then FirstLink(rel[t.walk[0]]) else 0
  }

  /** Levels from the top down, each starting at the first downlink of the one above. */
  ghost predicate Descending(rel: Rel, top: nat, ts: seq<Trace>) {
    && |ts| <= top + 1
    && (forall i | 0 <= i < |ts| :: LevelAccepted(rel, top - i, ts[i]))
    && (forall i | 0 < i < |ts| :: ts[i].leftmost == Below(rel, ts[i - 1]))
  }

  ghost predicate Accepted(rel: Rel, top: nat, root: nat, ts: seq<Trace>) {
    && Descending(rel, top, ts)
    && (if ts == [] then root == 0 else ts[0].leftmost == root && Below(rel, ts[|ts| - 1]) == 0)
  }

  /** A page with a first downlink is internal, so its level is not zero. */
  lemma {:induction false} MoreBelow(rel: Rel, lvl: nat, t: Trace)
    requires LevelAccepted(rel, lvl, t) && Below(rel, t) != 0
    ensures lvl > 0
  {
    assert PageFine(rel, lvl, t.walk, 0);
  }

  /** The root block of the metapage is a live leftmost page with the root flag, on the level
      that the metapage names. */
  ghost predicate TrueRoot(rel: Rel, root: nat, top: nat) {
    root in rel && rel[root].root && rel[root].prev == 0 && rel[root].level == top && !Ignore(rel[root])
  }

  lemma {:induction false} RootRead(rel: Rel, lvl: nat, t: Trace)
    requires LevelAccepted(rel, lvl, t) && rel[t.walk[0]].root
    ensures TrueRoot(rel, t.leftmost, lvl)
  {
    hide ChildLevelThreaded, InOrder, CrossInOrder, ChildrenAgree;
    assert PageFine(rel, lvl, t.walk, 0);
  }

  /** Levels that have all that acceptance establishes, from the root to the leaves, with every
      page under its own downlink; each can be walked within the given steps. */
  ghost predicate TreeReady(rel: Rel, top: nat, root: nat, ws: seq<seq<nat>>, steps: nat) {
    && |ws| == top + 1
    && (forall k | 0 <= k < |ws| :: LevelReadyAt(rel, top, ws, k, steps))
    && ws[0] != [] && ws[0][0] == root && root in rel && rel[root].root
  }

  ghost predicate LevelReadyAt(rel: Rel, top: nat, ws: seq<seq<nat>>, k: nat, steps: nat)
    requires k < |ws| == top + 1
  {
    && ws[k] != [] && LevelReady(rel, top - k, ws[k]) && |ws[k]| <= steps
    && ws[k][0] in rel && ws[k][0] != 0
    && FirstLink(rel[ws[k][0]]) == if k < top && ws[k + 1] != [] then ws[k + 1][0] else 0
  }

  lemma {:induction false} ReadyAtLevel(rel: Rel, top: nat, root: nat, ws: seq<seq<nat>>, steps: nat, k: nat)
    requires TreeReady(rel, top, root, ws, steps) && k <= top
    ensures ws[k] != [] && ReadyFrom(rel, top - k, ws[k][0], k == 0, ws[k], steps)
    ensures ws[k][0] in rel && ws[k][0] != 0
    ensures k < top ==> ws[k + 1] != [] && ws[k + 1][0] != 0 && FirstLink(rel[ws[k][0]]) == ws[k + 1][0]
    ensures k == top ==> FirstLink(rel[ws[k][0]]) == 0
  {
    hide LevelReady, FirstLink;
    assert LevelReadyAt(rel, top, ws, k, steps);
    if k < top {
      assert LevelReadyAt(rel, top, ws, k + 1, steps);
    }
  }

  /** Some level has a walk that meets a half-dead page twice. */
  ghost predicate EndlessLevel(rel: Rel) {
    exists lvl, leftmost, trueRoot, walk ::
      CheckedWalk(rel, lvl, leftmost, trueRoot, walk) && HalfDeadTwice(rel, walk)
  }

  /** The levels accepted so far are the first ones of a tree that is ready. */
  ghost predicate Matched(ts: seq<Trace>, ws: seq<seq<nat>>, leftmost: nat) {
    && |ts| <= |ws| && (forall i | 0 <= i < |ts| :: ts[i].walk == ws[i])
    && leftmost == if |ts| < |ws| && ws[|ts|] != [] then ws[|ts|][0] else 0
  }

  /** bt_check_every_level, from the root block and level in the metapage. The level falls
      with each round, so at most top + 1 levels are visited. A tree that is ready, as given
      by ws, is accepted. With more steps than the index has blocks the check decides, unless
      a level walk met a half-dead page twice or right links form a circle of pages without
      downlinks; and a root leaf whose walk goes on is never decided. */
  method CheckEveryLevel(rel: Rel, root: nat, top: nat, steps: nat, ghost ws: seq<seq<nat>>)
    returns (v: Verdict, ghost ts: seq<Trace>)
    requires 0 !in rel
    ensures v.Accept? ==> Accepted(rel, top, root, ts)
    ensures v.Accept? && root != 0 ==> TrueRoot(rel, root, top)
    ensures TreeReady(rel, top, root, ws, steps) ==> v.Accept?
    ensures Spacious(rel, steps) && v.OutOfSteps? ==> SkipCircle(rel) || EndlessLevel(rel)
    ensures top == 0 && root != 0 && ws != [] && CheckedWalk(rel, 0, root, true, ws[0]) && |ws[0]| > steps ==>
              v.OutOfSteps?
  {
    hide LevelFine, ChildLevelThreaded, TrueRoot, TreeReady, ReadyFrom, Spacious, SkipCircle, Walking, HalfDeadTwice,
      CheckedWalk;
    ghost var ready := TreeReady(rel, top, root, ws, steps);
    ghost var endless := top == 0 && root != 0 && ws != [] && CheckedWalk(rel, 0, root, true, ws[0]) && |ws[0]| > steps;
    var st := new CheckState(rel);
    var leftmost: nat, level: int, trueRoot := root, top, true;
    ts := [];
    if ready {
      ReadyLength(rel, top, root, ws, steps);
      ReadyAtLevel(rel, top, root, ws, steps, 0);
    }
    while leftmost != 0
      invariant fresh(st) && st.rel == rel && |ts| <= top + 1 && Descending(rel, top, ts)
      invariant if ts == [] then leftmost == root else ts[0].leftmost == root && leftmost == Below(rel, ts[|ts| - 1])
      invariant leftmost != 0 ==> level == top - |ts| && level >= 0
      invariant trueRoot <==> ts == []
      invariant ts != [] ==> TrueRoot(rel, root, top)
      invariant ready ==> Matched(ts, ws, leftmost)
      invariant endless ==> ts == []
      decreases if leftmost == 0 then 0 else level + 1
    {
      if ready {
        ReadyAtLevel(rel, top, root, ws, steps, |ts|);
      }
      var next;
      ghost var walk;
      v, next, walk := CheckLevel(st, level, leftmost, trueRoot, steps, if |ts| < |ws| then ws[|ts|] else []);
      if !v.Accept? {
        return;
      }
      if next.None? {
        return Corrupt, ts;
      }
      ghost var t := Trace(leftmost, walk, st.chain, st.hits);
      LevelRead(rel, level, t, next.value);
      if trueRoot {
        RootRead(rel, level, t);
      }
      ts := ts + [t];
      leftmost, level, trueRoot := next.value, level - 1, false;
    }
    v := Accept;
  }

  lemma {:induction false} ReadyLength(rel: Rel, top: nat, root: nat, ws: seq<seq<nat>>, steps: nat)
    requires TreeReady(rel, top, root, ws, steps)
    ensures |ws| == top + 1 && ws[0] != [] && ws[0][0] == root
  {
  }

  lemma {:induction false} LevelRead(rel: Rel, lvl: nat, t: Trace, next: nat)
    requires LevelFine(rel, lvl, t.leftmost, t.walk) && next == FirstLink(rel[t.walk[0]])
    requires lvl > 0 ==> ChildLevelThreaded(rel, t.walk, t.chain, t.hits)
    ensures LevelAccepted(rel, lvl, t) && next == Below(rel, t) && (next != 0 ==> lvl > 0)
  {
    hide ChildLevelThreaded;
    if next != 0 {
      MoreBelow(rel, lvl, t);
    }
  }

  // ----- parent and child level -----

  /** Two chains of right links from the same block to the end of a level are the same. */
  lemma {:induction false} SameChain(rel: Rel, cs: seq<nat>, ws: seq<nat>, i: nat)
    requires i < |cs| && cs != [] && ws != [] && cs[0] == ws[0]
    requires forall k | 0 < k < |cs| :: LinkAt(rel, cs, k)
    requires forall k | 0 < k < |ws| :: LinkAt(rel, ws, k)
    requires forall k | 0 <= k < |cs| :: cs[k] != 0
    requires ws[|ws| - 1] in rel && rel[ws[|ws| - 1]].next == 0
    ensures i < |ws| && cs[i] == ws[i]
  {
    if i > 0 {
      SameChain(rel, cs, ws, i - 1);
      assert LinkAt(rel, cs, i);
      if i < |ws| {
        assert LinkAt(rel, ws, i);
      }
    }
  }

  /** The chain read from the parents is the walk of the level below. */
  lemma {:induction false} ChainIsWalk(rel: Rel, lvl: nat, t: Trace, lvl': nat, u: Trace)
    requires lvl > 0 && LevelAccepted(rel, lvl, t) && LevelAccepted(rel, lvl', u)
    requires u.leftmost == Below(rel, t) && NoZero(Downlinks(rel, t.walk))
    ensures t.chain == u.walk
  {
    hide LiveFine, Sane, Skippable, NoZero, LevelFine, Downlinks;
    FirstDownlink(rel, lvl, t);
    assert t.chain[t.hits[0]] == Downlinks(rel, t.walk)[0];
    WalkIsChain(rel, lvl', u);
    ChainsEqual(rel, t.chain, u.walk);
  }

  /** A chain of right links to the end of a level. */
  ghost predicate WholeChain(rel: Rel, cs: seq<nat>) {
    && cs != [] && (forall k | 0 <= k < |cs| :: cs[k] != 0) && (forall k | 0 < k < |cs| :: LinkAt(rel, cs, k))
    && cs[|cs| - 1] in rel && rel[cs[|cs| - 1]].next == 0
  }

  lemma {:induction false} WalkIsChain(rel: Rel, lvl: nat, u: Trace)
    requires LevelAccepted(rel, lvl, u)
    ensures WholeChain(rel, u.walk) && u.walk[0] == u.leftmost
  {
    hide LiveFine, Sane, ChildLevelThreaded;
    forall k | 0 <= k < |u.walk|
      ensures u.walk[k] != 0
    {
      assert PageFine(rel, lvl, u.walk, k);
    }
    assert PageFine(rel, lvl, u.walk, |u.walk| - 1);
  }

  lemma {:induction false} ChainsEqual(rel: Rel, cs: seq<nat>, ws: seq<nat>)
    requires WholeChain(rel, cs) && WholeChain(rel, ws) && cs[0] == ws[0]
    ensures cs == ws
  {
    SameChain(rel, cs, ws, |cs| - 1);
    SameChain(rel, ws, cs, |ws| - 1);
    forall i | 0 <= i < |cs|
      ensures cs[i] == ws[i]
    {
      SameChain(rel, cs, ws, i);
    }
  }

  lemma {:induction false} DownlinksPrefix(rel: Rel, walk: seq<nat>, n: nat)
    requires n <= |walk|
    ensures |Downlinks(rel, walk[..n])| <= |Downlinks(rel, walk)|
    ensures Downlinks(rel, walk)[..|Downlinks(rel, walk[..n])|] == Downlinks(rel, walk[..n])
  {
    if n == |walk| {
      assert walk[..n] == walk;
    } else {
      var front := walk[..|walk| - 1];
      DownlinksPrefix(rel, front, n);
      assert front[..n] == walk[..n];
    }
  }

  /** Where the d-th downlink of the j-th page stands among the downlinks of the level. */
  ghost function Place(rel: Rel, walk: seq<nat>, j: nat, d: nat): nat
    requires j < |walk|
  {
    |Downlinks(rel, walk[..j])| + d
  }

  ghost predicate Internal(rel: Rel, walk: seq<nat>, j: nat) {
    j < |walk| && walk[j] in rel && !Ignore(rel[walk[j]]) && !rel[walk[j]].leaf
  }

  lemma {:induction false} PlaceOf(rel: Rel, walk: seq<nat>, j: nat, d: nat)
    requires Internal(rel, walk, j) && d < |Data(rel[walk[j]])|
    ensures Place(rel, walk, j, d) < |Downlinks(rel, walk)|
    ensures Downlinks(rel, walk)[Place(rel, walk, j, d)] == Data(rel[walk[j]])[d].link
    ensures |Downlinks(rel, walk[..j + 1])| == |Downlinks(rel, walk[..j])| + |Data(rel[walk[j]])|
  {
    hide Data;
    var p := rel[walk[j]];
    DownlinksGrow(rel, walk[..j], walk[j]);
    assert walk[..j + 1] == walk[..j] + [walk[j]];
    DownlinksPrefix(rel, walk, j + 1);
    var all, part := Downlinks(rel, walk), Downlinks(rel, walk[..j + 1]);
    assert all[..|part|][Place(rel, walk, j, d)] == part[Place(rel, walk, j, d)];
  }

  lemma {:induction false} FirstDownlink(rel: Rel, lvl: nat, t: Trace)
    requires lvl > 0 && LevelAccepted(rel, lvl, t)
    ensures |Downlinks(rel, t.walk)| > 0 && Downlinks(rel, t.walk)[0] == Below(rel, t)
  {
    hide LiveFine, ChildLevelThreaded;
    assert PageFine(rel, lvl, t.walk, 0);
    LiveLevel(rel, lvl, t, 0);
    PlaceOf(rel, t.walk, 0, 0);
    assert t.walk[..0] == [];
  }

  /** A live page above level zero is internal and has a downlink. */
  lemma {:induction false} LiveLevel(rel: Rel, lvl: nat, t: Trace, j: nat)
    requires lvl > 0 && LevelAccepted(rel, lvl, t) && j < |t.walk| && t.walk[j] in rel && !Ignore(rel[t.walk[j]])
    ensures Internal(rel, t.walk, j) && |Data(rel[t.walk[j]])| > 0
  {
    hide ChildLevelThreaded;
    assert PageFine(rel, lvl, t.walk, j);
  }

  /** A downlink that is followed by another one on its level leads to a page that has a right
      neighbour. */
  lemma {:induction false} ChildHasNext(rel: Rel, lvl: nat, t: Trace, k: nat)
    requires lvl > 0 && LevelAccepted(rel, lvl, t) && NoZero(Downlinks(rel, t.walk))
    requires k + 1 < |Downlinks(rel, t.walk)|
    ensures var b := Downlinks(rel, t.walk)[k]; b in rel && rel[b].next != 0
  {
    hide LevelFine, Sane, Skippable, NoZero, Downlinks;
    var cs, hits := t.chain, t.hits;
    assert hits[k] < hits[k + 1] < |cs|;
    assert LinkAt(rel, cs, hits[k] + 1);
  }

  // ----- separators -----

  /** No interrupted split or deletion is pending on a level. */
  ghost predicate Quiet(rel: Rel, walk: seq<nat>) {
    forall i | 0 <= i < |walk| && walk[i] in rel :: !rel[walk[i]].incomplete && !Ignore(rel[walk[i]])
  }

  /** The d-th downlink is the last one whose key is strictly below x, the first one counting as
      minus infinity. */
  ghost predicate LastBelow(p: Page, d: nat, x: int) {
    && d < |Data(p)|
    && (d == 0 || Data(p)[d].key < x)
    && (forall e | d < e < |Data(p)| :: x <= Data(p)[e].key)
  }

  /** Keys of an internal page increase, from the first real one on. */
  lemma {:induction false} KeysIncrease(p: Page, d: nat, e: nat)
    requires InOrder(p) && !p.leaf && 0 < d < e < |Data(p)|
    ensures Data(p)[d].key < Data(p)[e].key
    decreases e
  {
    hide Data;
    if d < e - 1 {
      KeysIncrease(p, d, e - 1);
    }
    assert Real(p, e - 1);
    assert ItemInOrder(p, e - 1);
  }

  /** Items of a page are at most its high key. */
  lemma {:induction false} BelowHighKey(p: Page, i: nat)
    requires InOrder(p) && Real(p, i) && p.next != 0 && p.items != []
    ensures Data(p)[i].key <= p.items[0].key
  {
    assert ItemInOrder(p, i);
  }

  /** The child of the d-th downlink of a live page: it agrees with the parent, and passed the
      check of its own level. */
  lemma {:induction false} ChildFacts(rel: Rel, lvl: nat, t: Trace, u: Trace, j: nat, d: nat)
    requires lvl > 0 && LevelAccepted(rel, lvl, t) && LevelAccepted(rel, lvl - 1, u)
    requires Quiet(rel, t.walk) && Quiet(rel, u.walk)
    requires u.leftmost == Below(rel, t) && NoZero(Downlinks(rel, t.walk))
    requires j < |t.walk| && t.walk[j] in rel && d < |Data(rel[t.walk[j]])|
    ensures var p := rel[t.walk[j]]; var b := Data(p)[d].link;
            && !p.leaf && InOrder(p) && b in rel && InOrder(rel[b]) && b != 0
            && (rel[b].next != 0 ==> rel[b].items != [] && Separates(p, d, rel[b].items[0].key))
            && (d > 0 ==> BoundedBelow(rel[b], Data(p)[d].key))
            && (d + 1 < |Data(p)| ==> rel[b].next != 0)
            && (j + 1 < |t.walk| ==> rel[b].next != 0)
            && b in u.walk
  {
    hide InOrder, CrossInOrder, Data, Downlinks, ChildLevelThreaded, Walking, Separates, BoundedBelow, NoZero;
    var p := rel[t.walk[j]];
    LiveLevel(rel, lvl, t, j);
    PageOfLevel(rel, lvl, t, j);
    assert ChildAgrees(rel, p, d);
    PlaceOf(rel, t.walk, j, d);
    var k := Place(rel, t.walk, j, d);
    var b := Data(p)[d].link;
    NotZero(Downlinks(rel, t.walk), k);
    if d + 1 < |Data(p)| {
      PlaceOf(rel, t.walk, j, d + 1);
      ChildHasNext(rel, lvl, t, k);
    } else if j + 1 < |t.walk| {
      PageOfLevel(rel, lvl, t, j + 1);
      LiveLevel(rel, lvl, t, j + 1);
      PlaceOf(rel, t.walk, j + 1, 0);
      ChildHasNext(rel, lvl, t, k);
    }
    ChainIsWalk(rel, lvl, t, lvl - 1, u);
    var i := HitOf(rel, t, k);
    PageOfLevel(rel, lvl - 1, u, i);
  }

  lemma {:induction false} NotZero(downs: seq<nat>, k: nat)
    requires NoZero(downs) && k < |downs|
    ensures downs[k] != 0
  {
  }

  lemma {:induction false} HitOf(rel: Rel, t: Trace, k: nat) returns (i: nat)
    requires ChildLevelThreaded(rel, t.walk, t.chain, t.hits) && NoZero(Downlinks(rel, t.walk))
    requires k < |Downlinks(rel, t.walk)|
    ensures i < |t.chain| && t.chain[i] == Downlinks(rel, t.walk)[k]
  {
    hide Downlinks, NoZero;
    i := t.hits[k];
  }

  lemma {:induction false} PageOfLevel(rel: Rel, lvl: nat, t: Trace, j: nat)
    requires Quiet(rel, t.walk) && LevelAccepted(rel, lvl, t) && j < |t.walk|
    ensures t.walk[j] in rel && !Ignore(rel[t.walk[j]]) && InOrder(rel[t.walk[j]]) && rel[t.walk[j]].level == lvl
    ensures !rel[t.walk[j]].leaf ==> ChildrenAgree(rel, rel[t.walk[j]])
    ensures rel[t.walk[j]].next == 0 <==> j + 1 == |t.walk|
  {
    hide InOrder, CrossInOrder, ChildrenAgree, ChildLevelThreaded;
    assert PageFine(rel, lvl, t.walk, j);
    if j + 1 < |t.walk| {
      assert LinkAt(rel, t.walk, j + 1);
      assert PageFine(rel, lvl, t.walk, j + 1);
    }
  }

  /** Items are at most the separator after their page's downlink. */
  lemma {:induction false} UpperBound(p: Page, d: nat, child: Page, i: nat)
    requires d < |Data(p)| && InOrder(p) && !p.leaf && InOrder(child) && Real(child, i) && child.next != 0
    requires child.items != [] && Separates(p, d, child.items[0].key)
    ensures forall e | d < e < |Data(p)| :: Data(child)[i].key <= Data(p)[e].key
  {
    hide Data, InOrder;
    var x := Data(child)[i].key;
    BelowHighKey(child, i);
    forall e | d < e < |Data(p)|
      ensures x <= Data(p)[e].key
    {
      if e > d + 1 {
        KeysIncrease(p, d + 1, e);
      }
    }
  }

  /** The separator theorem: in an accepted quiet tree, for every parent and every real item in a
      child it links to, the last downlink below the item is the downlink to that child. */
  lemma {:induction false} SeparatorsLead(rel: Rel, lvl: nat, t: Trace, u: Trace, j: nat, d: nat, i: nat)
    requires lvl > 0 && LevelAccepted(rel, lvl, t) && LevelAccepted(rel, lvl - 1, u)
    requires Quiet(rel, t.walk) && Quiet(rel, u.walk)
    requires u.leftmost == Below(rel, t) && NoZero(Downlinks(rel, t.walk))
    requires j < |t.walk| && t.walk[j] in rel && d < |Data(rel[t.walk[j]])|
    requires Data(rel[t.walk[j]])[d].link in rel && Real(rel[Data(rel[t.walk[j]])[d].link], i)
    ensures var p := rel[t.walk[j]]; LastBelow(p, d, Data(rel[Data(p)[d].link])[i].key)
  {
    hide InOrder, Data, Downlinks, LevelAccepted, Quiet, Separates, NoZero;
    ChildFacts(rel, lvl, t, u, j, d);
    var p := rel[t.walk[j]];
    var child := rel[Data(p)[d].link];
    if child.next != 0 {
      UpperBound(p, d, child, i);
    }
  }
}
