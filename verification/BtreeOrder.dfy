/**
 What an accepted tree looks like as a whole (contrib/amcheck/verify_nbtree.c): the items of a
 level increase from its left end to its right end, its leaves are all at the bottom, and
 without pending splits and deletions the downlinks of a level are the level below.
 */
module BtreeOrder {
  import opened BtreePages
  import opened BtreeCheck
  import opened BtreeCircles
  import opened BtreeWalk
  import opened BtreeLevels
  import opened BtreeTree

  // ----- the order of a level -----

  predicate Increasing(ks: seq<int>) {
    forall i, j | 0 <= i < j < |ks| :: ks[i] < ks[j]
  }

  /** The keys after the high key and, on an internal page, after the minus infinity item. */
  function Keys(p: Page): (ks: seq<int>) {
    var skip := (if p.next == 0 || p.items == [] then 0 else 1) + if p.leaf then 0 else 1;
    if |p.items| <= skip then [] else seq(|p.items| - skip, i requires 0 <= i < |p.items| - skip => p.items[skip + i].key)
  }

  /** The keys of the live pages among these blocks, from left to right. */
  ghost function LevelKeys(rel: Rel, walk: seq<nat>): seq<int> {
    if walk == [] then []
    else
      var b := walk[|walk| - 1];
      LevelKeys(rel, walk[..|walk| - 1]) + if b in rel && !rel[b].deleted && !rel[b].halfDead then Keys(rel[b]) else []
  }

  /** Every live page has a key. */
  ghost predicate Filled(rel: Rel, walk: seq<nat>) {
    forall i | 0 <= i < |walk| :: walk[i] in rel && !rel[walk[i]].deleted && !rel[walk[i]].halfDead ==> Keys(rel[walk[i]]) != []
  }

  lemma {:induction false} KeysAre(p: Page)
    ensures |Keys(p)| == if |Data(p)| > FirstReal(p) then |Data(p)| - FirstReal(p) else 0
    ensures forall i | 0 <= i < |Keys(p)| :: Keys(p)[i] == Data(p)[FirstReal(p) + i].key
  {
  }

  /** The keys of a page that is in order increase. */
  lemma {:induction false} KeysOrdered(p: Page, i: nat, j: nat)
    requires InOrder(p) && i < j < |Keys(p)|
    ensures Keys(p)[i] < Keys(p)[j]
    decreases j
  {
    hide Data, Keys;
    KeysAre(p);
    if i < j - 1 {
      KeysOrdered(p, i, j - 1);
    }
    var d := FirstReal(p) + j - 1;
    assert Real(p, d);
    assert ItemInOrder(p, d);
  }

  lemma {:induction false} LevelKeysGrow(rel: Rel, walk: seq<nat>, lo: nat, n: nat)
    requires lo <= n < |walk|
    ensures LevelKeys(rel, walk[lo..n + 1])
         == LevelKeys(rel, walk[lo..n]) + if walk[n] in rel && !Ignore(rel[walk[n]]) then Keys(rel[walk[n]]) else []
  {
    assert walk[lo..n + 1][..n - lo] == walk[lo..n];
  }

  /** Only ignorable pages stand between m and n. */
  ghost predicate Between(rel: Rel, walk: seq<nat>, m: nat, n: nat) {
    forall k | m < k < n && k < |walk| && walk[k] in rel :: Ignore(rel[walk[k]])
  }

  /** From one live page of a level to the next: the last key is below the first. */
  lemma {:induction false} AcrossPages(rel: Rel, lvl: nat, t: Trace, m: nat, n: nat)
    requires LevelAccepted(rel, lvl, t) && m < n < |t.walk| && Between(rel, t.walk, m, n)
    requires t.walk[m] in rel && !Ignore(rel[t.walk[m]]) && t.walk[n] in rel && !Ignore(rel[t.walk[n]])
    requires Keys(rel[t.walk[m]]) != [] && Keys(rel[t.walk[n]]) != []
    ensures var ks := Keys(rel[t.walk[m]]); ks[|ks| - 1] < Keys(rel[t.walk[n]])[0]
  {
    hide Data, Keys, InOrder, ChildrenAgree, ChildLevelThreaded, Sane;
    var p, q := rel[t.walk[m]], rel[t.walk[n]];
    KeysAre(p);
    KeysAre(q);
    assert PageFine(rel, lvl, t.walk, m);
    assert LinkAt(rel, t.walk, m + 1);
    assert PageFine(rel, lvl, t.walk, m + 1);
    var path := t.walk[m + 1..n + 1];
    PathBetween(rel, lvl, t, m, n);
    var other :| RightPath(rel, p.next, other) && BelowFirst(p, rel[other[|other| - 1]]);
    SamePath(rel, p.next, path, other);
    assert path[|path| - 1] == t.walk[n];
  }

  lemma {:induction false} PathBetween(rel: Rel, lvl: nat, t: Trace, m: nat, n: nat)
    requires LevelAccepted(rel, lvl, t) && m < n < |t.walk| && Between(rel, t.walk, m, n)
    requires t.walk[m] in rel && t.walk[n] in rel && !Ignore(rel[t.walk[n]])
    ensures RightPath(rel, rel[t.walk[m]].next, t.walk[m + 1..n + 1])
  {
    hide LiveFine, ChildLevelThreaded, Sane;
    var path := t.walk[m + 1..n + 1];
    assert LinkAt(rel, t.walk, m + 1);
    assert path[0] == t.walk[m + 1];
    forall i | 0 <= i < |path| - 1
      ensures PassedAt(rel, path, i)
    {
      var k := m + 1 + i;
      assert path[i] == t.walk[k] && path[i + 1] == t.walk[k + 1];
      assert PageFine(rel, lvl, t.walk, k) && PageFine(rel, lvl, t.walk, k + 1);
      assert LinkAt(rel, t.walk, k + 1);
    }
    assert PageFine(rel, lvl, t.walk, n);
    assert path[|path| - 1] == t.walk[n];
  }

  /** The state of the argument after n pages: the keys increase, and the last one is the last
      key of the live page m, after which only ignorable pages came. */
  ghost predicate UpTo(rel: Rel, walk: seq<nat>, lo: nat, n: nat, m: int) {
    && lo <= n <= |walk| && Increasing(LevelKeys(rel, walk[lo..n])) && lo - 1 <= m < n
    && (forall k | lo <= k < n && m < k && walk[k] in rel :: Ignore(rel[walk[k]]))
    && (if m < lo then LevelKeys(rel, walk[lo..n]) == []
        else
          && walk[m] in rel && !Ignore(rel[walk[m]]) && Keys(rel[walk[m]]) != [] && LevelKeys(rel, walk[lo..n]) != []
          && LastOf(LevelKeys(rel, walk[lo..n])) == LastOf(Keys(rel[walk[m]])))
  }

  function LastOf(ks: seq<int>): int
    requires ks != []
  {
    ks[|ks| - 1]
  }

  lemma {:induction false} JoinIncreasing(a: seq<int>, b: seq<int>)
    requires Increasing(a) && Increasing(b) && (a != [] && b != [] ==> a[|a| - 1] < b[0])
    ensures Increasing(a + b)
  {
    forall i, j | 0 <= i < j < |a + b|
      ensures (a + b)[i] < (a + b)[j]
    {
      if i < |a| <= j {
        assert a[i] <= a[|a| - 1] && b[0] <= b[j - |a|];
      }
    }
  }

  lemma {:induction false} UpToNext(rel: Rel, lvl: nat, t: Trace, lo: nat, n: nat, m: int) returns (m': int)
    requires LevelAccepted(rel, lvl, t) && lo <= n < |t.walk| && Filled(rel, t.walk[lo..n + 1])
    requires UpTo(rel, t.walk, lo, n, m)
    ensures UpTo(rel, t.walk, lo, n + 1, m')
  {
    hide LevelAccepted, LevelKeys, Keys, Ignore;
    LevelKeysGrow(rel, t.walk, lo, n);
    var was, b := LevelKeys(rel, t.walk[lo..n]), t.walk[n];
    PageThere(rel, lvl, t, n);
    if Ignore(rel[b]) {
      m' := m;
      assert was + [] == was;
    } else {
      m' := n;
      var ks := Keys(rel[b]);
      assert ks != [] by { FilledAt(rel, t.walk, lo, n); }
      assert Increasing(ks) by {
        forall i, j | 0 <= i < j < |ks|
          ensures ks[i] < ks[j]
        {
          KeysOrdered(rel[b], i, j);
        }
      }
      if m >= lo {
        AcrossPages(rel, lvl, t, m, n);
      }
      JoinIncreasing(was, ks);
      assert LastOf(was + ks) == LastOf(ks);
    }
  }

  lemma {:induction false} FilledAt(rel: Rel, walk: seq<nat>, lo: nat, n: nat)
    requires lo <= n < |walk| && Filled(rel, walk[lo..n + 1]) && walk[n] in rel && !Ignore(rel[walk[n]])
    ensures Keys(rel[walk[n]]) != []
  {
    hide Keys;
    assert walk[lo..n + 1][n - lo] == walk[n];
  }

  lemma {:induction false} PageThere(rel: Rel, lvl: nat, t: Trace, n: nat)
    requires LevelAccepted(rel, lvl, t) && n < |t.walk|
    ensures t.walk[n] in rel && (!Ignore(rel[t.walk[n]]) ==> InOrder(rel[t.walk[n]]))
  {
    hide InOrder, CrossInOrder, ChildrenAgree, ChildLevelThreaded, Sane;
    assert PageFine(rel, lvl, t.walk, n);
  }

  lemma {:induction false} UpToAll(rel: Rel, lvl: nat, t: Trace, lo: nat, n: nat) returns (m: int)
    requires LevelAccepted(rel, lvl, t) && lo <= n <= |t.walk| && Filled(rel, t.walk[lo..n])
    ensures UpTo(rel, t.walk, lo, n, m)
  {
    hide LevelAccepted, Keys;
    if n == lo {
      m := lo - 1;
      assert t.walk[lo..n] == [];
    } else {
      assert t.walk[lo..n - 1] == t.walk[lo..n][..n - 1 - lo];
      m := UpToAll(rel, lvl, t, lo, n - 1);
      hide UpTo, Filled, LevelKeys;
      m := UpToNext(rel, lvl, t, lo, n - 1, m);
    }
  }

  /** On an accepted level, the real items of any stretch of pages without an empty live page
      strictly increase from its first page to its last, across all page boundaries. */
  lemma {:induction false} LevelInOrder(rel: Rel, lvl: nat, t: Trace, lo: nat, hi: nat)
    requires LevelAccepted(rel, lvl, t) && lo <= hi <= |t.walk| && Filled(rel, t.walk[lo..hi])
    ensures Increasing(LevelKeys(rel, t.walk[lo..hi]))
  {
    hide LevelAccepted, LevelKeys, Filled, Increasing;
    var m := UpToAll(rel, lvl, t, lo, hi);
  }

  /** The keys of a live page that is not the last of its level are at most its high key, and on
      an internal page below it. */
  lemma {:induction false} UnderHighKeys(rel: Rel, lvl: nat, t: Trace, n: nat, i: nat)
    requires LevelAccepted(rel, lvl, t) && n < |t.walk| && t.walk[n] in rel && !Ignore(rel[t.walk[n]])
    requires i < |Keys(rel[t.walk[n]])| && rel[t.walk[n]].next != 0
    ensures var p := rel[t.walk[n]];
            p.items != [] && if p.leaf then Keys(p)[i] <= p.items[0].key else Keys(p)[i] < p.items[0].key
  {
    hide Data, LevelAccepted, Keys;
    var p := rel[t.walk[n]];
    PageThere(rel, lvl, t, n);
    KeysAre(p);
    assert Real(p, FirstReal(p) + i);
    assert ItemInOrder(p, FirstReal(p) + i);
    assert p.items != [] by { HasHighKey(rel, lvl, t, n); }
  }

  lemma {:induction false} HasHighKey(rel: Rel, lvl: nat, t: Trace, n: nat)
    requires LevelAccepted(rel, lvl, t) && n < |t.walk| && t.walk[n] in rel && !Ignore(rel[t.walk[n]])
    ensures rel[t.walk[n]].next != 0 ==> rel[t.walk[n]].items != []
  {
    hide InOrder, CrossInOrder, ChildrenAgree, ChildLevelThreaded;
    assert PageFine(rel, lvl, t.walk, n);
  }

  // ----- leaves -----

  /** Every live page of an accepted tree is on the level of its distance from the bottom, and is
      a leaf exactly at the bottom. */
  lemma {:induction false} LeavesAtBottom(rel: Rel, top: nat, root: nat, ts: seq<Trace>, k: nat, i: nat)
    requires Accepted(rel, top, root, ts) && k < |ts| && i < |ts[k].walk|
    ensures var b := ts[k].walk[i];
            b in rel && (!rel[b].deleted && !rel[b].halfDead ==> rel[b].level == top - k && (rel[b].leaf <==> k == top))
  {
    hide InOrder, CrossInOrder, ChildrenAgree, ChildLevelThreaded, Data, LeftIn;
    assert LevelAccepted(rel, top - k, ts[k]);
    assert PageFine(rel, top - k, ts[k].walk, i);
  }

  // ----- downlinks -----

  /** A downlink of a live page of an accepted level leads to a page that can be read, is one level
      below unless it is ignorable, and is not deleted, with all its keys above the downlink's,
      unless the downlink is the first. */
  lemma {:induction false} ChildOneBelow(rel: Rel, lvl: nat, t: Trace, j: nat, d: nat)
    requires lvl > 0 && LevelAccepted(rel, lvl, t) && j < |t.walk| && t.walk[j] in rel && !Ignore(rel[t.walk[j]])
    requires d < |Data(rel[t.walk[j]])| && Data(rel[t.walk[j]])[d].link != 0
    ensures var b := Data(rel[t.walk[j]])[d].link;
            && b in rel && (!rel[b].deleted && !rel[b].halfDead ==> rel[b].level == lvl - 1)
            && (d > 0 ==> !rel[b].deleted)
            && (d > 0 ==> forall i | 0 <= i < |Keys(rel[b])| :: Data(rel[t.walk[j]])[d].key < Keys(rel[b])[i])
  {
    hide Data, Keys, LevelAccepted;
    var p := rel[t.walk[j]];
    var b := Data(p)[d].link;
    ChildrenOf(rel, lvl, t, j);
    assert ChildAgrees(rel, p, d);
    KeysAre(rel[b]);
    forall i | 0 <= i < |Keys(rel[b])| && d > 0
      ensures Data(p)[d].key < Keys(rel[b])[i]
    {
      assert Real(rel[b], FirstReal(rel[b]) + i);
    }
  }

  lemma {:induction false} ChildrenOf(rel: Rel, lvl: nat, t: Trace, j: nat)
    requires lvl > 0 && LevelAccepted(rel, lvl, t) && j < |t.walk| && t.walk[j] in rel && !Ignore(rel[t.walk[j]])
    ensures ChildrenAgree(rel, rel[t.walk[j]]) && rel[t.walk[j]].level == lvl
  {
    hide InOrder, CrossInOrder, ChildrenAgree, ChildLevelThreaded;
    assert PageFine(rel, lvl, t.walk, j);
  }

  /** No split or deletion is pending in the whole index. */
  ghost predicate Idle(rel: Rel) {
    forall b | b in rel :: !rel[b].deleted && !rel[b].halfDead && !rel[b].incomplete
  }

  lemma {:induction false} HitsAreAll(cs: seq<nat>, hits: seq<nat>, k: nat)
    requires forall i | 0 <= i < |hits| :: hits[i] < |cs|
    requires forall i, j | 0 <= i < j < |hits| :: hits[i] < hits[j]
    requires forall i: nat | i < |cs| :: i in hits
    requires k <= |cs|
    ensures k <= |hits| && forall i | 0 <= i < k :: hits[i] == i
  {
    if k > 0 {
      HitsAreAll(cs, hits, k - 1);
      assert k - 1 in hits;
      var i :| 0 <= i < |hits| && hits[i] == k - 1;
      assert i >= k - 1;
      assert k - 1 > 0 ==> hits[k - 2] < hits[k - 1];
    }
  }

  /** In an idle index with one root, the downlinks of an accepted level, read from left to right,
      are the pages of the level below, each exactly once. */
  lemma {:induction false} DownlinksAreLevel(rel: Rel, lvl: nat, t: Trace, u: Trace)
    requires lvl > 0 && LevelAccepted(rel, lvl, t) && LevelAccepted(rel, lvl - 1, u) && u.leftmost == Below(rel, t)
    requires Idle(rel) && NoZero(Downlinks(rel, t.walk))
    requires forall i | 0 <= i < |u.walk| && u.walk[i] in rel :: !rel[u.walk[i]].root
    ensures Downlinks(rel, t.walk) == u.walk
  {
    hide LevelAccepted, Downlinks, NoZero;
    ChainIsWalk(rel, lvl, t, lvl - 1, u);
    ThreadedBy(rel, lvl, t);
    var cs, hits := t.chain, t.hits;
    forall i: nat | i < |cs|
      ensures i in hits
    {
      NoExcuse(rel, cs, i);
    }
    HitsAreAll(cs, hits, |cs|);
    AsMany(cs, hits);
    assert Downlinks(rel, t.walk) == cs;
  }

  lemma {:induction false} AsMany(cs: seq<nat>, hits: seq<nat>)
    requires forall i | 0 <= i < |hits| :: hits[i] < |cs|
    requires forall i, j | 0 <= i < j < |hits| :: hits[i] < hits[j]
    requires |cs| <= |hits| && forall i | 0 <= i < |cs| :: hits[i] == i
    ensures |hits| == |cs|
  {
    assert |hits| > |cs| ==> hits[|cs|] < |cs|;
    assert |cs| > 0 ==> hits[|cs| - 1] == |cs| - 1;
  }

  lemma {:induction false} ThreadedBy(rel: Rel, lvl: nat, t: Trace)
    requires lvl > 0 && LevelAccepted(rel, lvl, t) && NoZero(Downlinks(rel, t.walk))
    ensures Threaded(rel, t.chain, t.hits, Downlinks(rel, t.walk))
  {
    hide LevelFine, NoZero, Downlinks, Threaded;
  }

  lemma {:induction false} NoExcuse(rel: Rel, cs: seq<nat>, i: nat)
    requires Idle(rel) && i < |cs| && (cs[i] in rel ==> !rel[cs[i]].root)
    ensures !Skippable(rel, cs, i)
  {
    assert !TopOfDeletion(rel, cs[i]);
  }
}
