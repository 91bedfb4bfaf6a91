/**
 B-Tree pages as the verifier of contrib/amcheck/verify_nbtree.c sees them: a finite map from
 block numbers to pages. Keys are elements of a total order; an index holds finitely many, so
 integers stand for them. Block 0 is the metapage and also the null link.
 */
module BtreePages {
  import opened Wrappers

  /** An item: a key, and a downlink or (in the high key of a half-dead leaf) a top-parent link. */
  datatype Item = Item(key: int, link: nat)

  datatype Page = Page(
    leaf: bool, root: bool, deleted: bool, halfDead: bool, incomplete: bool,
    prev: nat, next: nat, level: nat, items: seq<Item>)

  type Rel = map<nat, Page>

  predicate Ignore(p: Page) {
    p.deleted || p.halfDead
  }

  /** The items after the high key; only the rightmost page of a level has no high key. */
  function Data(p: Page): seq<Item> {
    if p.next == 0 || p.items == [] then p.items else p.items[1..]
  }

  /** The basic checks made on every page that is read. */
  predicate Sane(p: Page) {
    && (p.leaf && !p.deleted ==> p.level == 0)
    && (!p.leaf && !p.deleted ==> p.level != 0)
    && (!p.leaf && !p.deleted ==> |p.items| >= if p.next == 0 then 1 else 2)
    && (p.leaf && !p.deleted && p.next != 0 ==> |p.items| >= 1)
    && (!p.leaf ==> !p.halfDead)
  }

  predicate Loadable(rel: Rel, b: nat) {
    b in rel && Sane(rel[b])
  }

  /** The level below, in the source's unsigned arithmetic. */
  function LevelBelow(level: nat): nat {
    if level == 0 then 0xFFFF_FFFF else level - 1
  }

  /** The first item of an internal page is minus infinity; the others are real. */
  predicate Real(p: Page, d: nat) {
    d < |Data(p)| && (p.leaf || d > 0)
  }

  // ----- what acceptance says about one page -----

  /** Real items are in strict order and below the high key, on a leaf possibly equal to it. */
  ghost predicate ItemInOrder(p: Page, d: nat)
    requires d < |Data(p)|
  {
    && (p.next != 0 && p.items != [] ==>
          if p.leaf then Data(p)[d].key <= p.items[0].key else Data(p)[d].key < p.items[0].key)
    && (d + 1 < |Data(p)| ==> Data(p)[d].key < Data(p)[d + 1].key)
  }

  ghost predicate InOrder(p: Page) {
    forall d | 0 <= d < |Data(p)| && Real(p, d) :: ItemInOrder(p, d)
  }

  /** The first real item. */
  function FirstReal(p: Page): nat {
    if p.leaf then 0 else 1
  }

  /** The blocks read to find the first live page to the right: ignorable ones, then a live page
      or the end of the level. */
  ghost predicate RightPath(rel: Rel, b: nat, path: seq<nat>) {
    && path != [] && path[0] == b
    && (forall i | 0 <= i < |path| - 1 :: PassedAt(rel, path, i))
    && (var last := path[|path| - 1]; Loadable(rel, last) && (!Ignore(rel[last]) || rel[last].next == 0))
  }

  ghost predicate PassedAt(rel: Rel, path: seq<nat>, i: nat)
    requires i + 1 < |path|
  {
    Loadable(rel, path[i]) && Ignore(rel[path[i]]) && rel[path[i]].next != 0 && rel[path[i]].next == path[i + 1]
  }

  function FirstKey(p: Page): Option<int> {
    if |Data(p)| > FirstReal(p) then Some(Data(p)[FirstReal(p)].key) else None
  }

  /** The last real item is below the first real item of the first live page to the right. */
  ghost predicate CrossInOrder(rel: Rel, p: Page) {
    p.next != 0 && |Data(p)| > FirstReal(p) ==>
      exists path :: RightPath(rel, p.next, path) && BelowFirst(p, rel[path[|path| - 1]])
  }

  ghost predicate BelowFirst(p: Page, right: Page) {
    |Data(p)| > FirstReal(p) && FirstKey(right).Some? ==> Data(p)[|Data(p)| - 1].key < FirstKey(right).value
  }

  /** A page that can be read and is neither deleted nor half-dead. */
  ghost predicate Live(rel: Rel, b: nat) {
    Loadable(rel, b) && !Ignore(rel[b])
  }

  // ----- what acceptance says about a parent and one child -----

  /** The separator after the d-th downlink: the next key, or the page's high key. */
  ghost predicate Separates(p: Page, d: nat, key: int)
    requires d < |Data(p)|
  {
    if d + 1 < |Data(p)| then Data(p)[d + 1].key == key
    else p.next != 0 && p.items != [] && p.items[0].key == key
  }

  /** All real items of the child are above the downlink's key. */
  ghost predicate BoundedBelow(child: Page, key: int) {
    forall d | 0 <= d < |Data(child)| && Real(child, d) :: key < Data(child)[d].key
  }

  ghost predicate ChildAgrees(rel: Rel, p: Page, d: nat)
    requires d < |Data(p)|
  {
    var b := Data(p)[d].link;
    b != 0 ==>
      && Loadable(rel, b)
      && (!Ignore(rel[b]) ==> rel[b].level == LevelBelow(p.level))
      && (!rel[b].incomplete && rel[b].next != 0 ==> rel[b].items != [] && Separates(p, d, rel[b].items[0].key))
      && (d > 0 ==> !rel[b].deleted && BoundedBelow(rel[b], Data(p)[d].key))
  }

  ghost predicate ChildrenAgree(rel: Rel, p: Page) {
    forall d | 0 <= d < |Data(p)| :: ChildAgrees(rel, p, d)
  }

  // ----- chains of right links -----

  /** Blocks linked to the right, starting at the left end of a level. */
  ghost predicate Chain(rel: Rel, cs: seq<nat>) {
    && (forall i | 0 <= i < |cs| :: cs[i] != 0 && Loadable(rel, cs[i]))
    && (cs != [] ==> rel[cs[0]].prev == 0)
    && (forall i | 0 < i < |cs| :: LinkAt(rel, cs, i))
  }

  ghost predicate LinkAt(rel: Rel, cs: seq<nat>, i: nat)
    requires 0 < i < |cs|
  {
    cs[i - 1] in rel && rel[cs[i - 1]].next == cs[i]
  }

  /** From a page along first downlinks to a half-dead leaf that points back to it. */
  ghost predicate DeletionPath(rel: Rel, path: seq<nat>) {
    && |path| >= 2
    && (forall i | 0 <= i < |path| - 1 :: DescendsAt(rel, path, i))
    && (var last := path[|path| - 1];
        last in rel && rel[last].leaf && rel[last].halfDead && !rel[last].deleted && rel[last].next != 0 &&
        rel[last].items != [] && rel[last].items[0].link == path[0])
  }

  ghost predicate DescendsAt(rel: Rel, path: seq<nat>, i: nat)
    requires i + 1 < |path|
  {
    path[i] in rel && !rel[path[i]].leaf && Data(rel[path[i]]) != [] && Data(rel[path[i]])[0].link == path[i + 1]
  }

  ghost predicate TopOfDeletion(rel: Rel, b: nat) {
    exists path :: DeletionPath(rel, path) && path[0] == b
  }

  /** Why a page of the child level may lack a downlink. */
  ghost predicate Skippable(rel: Rel, cs: seq<nat>, i: nat)
    requires i < |cs|
  {
    && cs[i] in rel
    && (|| Ignore(rel[cs[i]]) || rel[cs[i]].root
        || (i > 0 && cs[i - 1] in rel && rel[cs[i - 1]].incomplete)
        || TopOfDeletion(rel, cs[i]))
  }

  /** The downlinks read so far are a strictly advancing subsequence of the chain, and every
      page passed over has an excuse. */
  ghost predicate Threaded(rel: Rel, cs: seq<nat>, hits: seq<nat>, downs: seq<nat>) {
    && Chain(rel, cs) && |hits| == |downs| && (cs != [] ==> hits != [] && hits[0] == 0)
    && (forall k | 0 <= k < |hits| :: hits[k] < |cs| && cs[hits[k]] == downs[k])
    && (forall k, m | 0 <= k < m < |hits| :: hits[k] < hits[m])
    && (forall i | 0 <= i < |cs| :: i in hits || Skippable(rel, cs, i))
  }

  ghost predicate NoZero(downs: seq<nat>) {
    forall k | 0 <= k < |downs| :: downs[k] != 0
  }
}
