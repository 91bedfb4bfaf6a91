/**
 The read-only check of a B-Tree (contrib/amcheck/verify_nbtree.c), one level at a time from the
 true root down. Each method either accepts, reports corruption, or runs out of the steps it
 was given: links of a damaged index can form cycles that the original follows forever.
 */
module BtreeCheck {
  import opened Wrappers
  import opened BtreePages
  import opened BtreeCircles

  datatype Verdict = Accept | Corrupt | OutOfSteps

  // ----- growing a chain -----

  lemma {:induction false} ChainGrows(rel: Rel, cs: seq<nat>, b: nat)
    requires Chain(rel, cs) && b != 0 && Loadable(rel, b)
    requires if cs == [] then rel[b].prev == 0 else rel[cs[|cs| - 1]].next == b
    ensures Chain(rel, cs + [b])
  {
    var ds := cs + [b];
    forall i | 0 < i < |ds|
      ensures LinkAt(rel, ds, i)
    {
      if i < |cs| {
        assert LinkAt(rel, cs, i);
      }
    }
  }

  lemma {:induction false} StillSkippable(rel: Rel, cs: seq<nat>, b: nat, i: nat)
    requires i < |cs| && Skippable(rel, cs, i)
    ensures Skippable(rel, cs + [b], i)
  {
    hide TopOfDeletion;
  }

  /** Passing over a page with an excuse. */
  lemma {:induction false} ThreadSkip(rel: Rel, cs: seq<nat>, hits: seq<nat>, downs: seq<nat>, b: nat)
    requires Threaded(rel, cs, hits, downs) && b != 0 && Loadable(rel, b)
    requires cs != [] && rel[cs[|cs| - 1]].next == b
    requires Skippable(rel, cs + [b], |cs|)
    ensures Threaded(rel, cs + [b], hits, downs)
  {
    hide Chain, Skippable, Sane;
    var ds := cs + [b];
    ChainGrows(rel, cs, b);
    forall i | 0 <= i < |ds|
      ensures i in hits || Skippable(rel, ds, i)
    {
      if i < |cs| && i !in hits {
        StillSkippable(rel, cs, b, i);
      }
    }
  }

  /** Arriving at the page of the next downlink. */
  lemma {:induction false} ThreadHit(rel: Rel, cs: seq<nat>, hits: seq<nat>, downs: seq<nat>, b: nat)
    requires Threaded(rel, cs, hits, downs) && b != 0 && Loadable(rel, b)
    requires if cs == [] then rel[b].prev == 0 else rel[cs[|cs| - 1]].next == b
    ensures Threaded(rel, cs + [b], hits + [|cs|], downs + [b])
  {
    hide Chain, Skippable, Sane;
    var ds, hs := cs + [b], hits + [|cs|];
    ChainGrows(rel, cs, b);
    forall i | 0 <= i < |ds|
      ensures i in hs || Skippable(rel, ds, i)
    {
      if i == |cs| {
        assert hs[|hits|] == i;
      } else if i in hits {
        var k :| 0 <= k < |hits| && hits[k] == i;
        assert hs[k] == i;
      } else {
        StillSkippable(rel, cs, b, i);
      }
    }
  }

  /** The chain read so far on the child level agrees with what the checker remembers of it. */
  ghost predicate Remembers(rel: Rel, cs: seq<nat>, right: Option<nat>, split: bool) {
    && (right.None? <==> cs == [])
    && (cs != [] ==>
          && cs[|cs| - 1] in rel && right == Some(rel[cs[|cs| - 1]].next)
          && split == rel[cs[|cs| - 1]].incomplete)
  }

  /** Where the walk on the child level stands: the next block and whether it follows an
      incomplete split. */
  ghost predicate At(rel: Rel, cs: seq<nat>, downlink: nat, b: nat, split: bool) {
    if cs == [] then b == downlink && !split
    else cs[|cs| - 1] in rel && b == rel[cs[|cs| - 1]].next && split == rel[cs[|cs| - 1]].incomplete
  }

  /** The fields of BtreeCheckState that carry over from one downlink to the next. The ghost
      fields hold the child-level pages read, the downlinks read, and where they were met. */
  class CheckState {
    const rel: Rel
    var prevrightlink: Option<nat>
    var previncompletesplit: bool
    var lowkey: Option<int>
    ghost var chain: seq<nat>
    ghost var hits: seq<nat>
    ghost var downs: seq<nat>

    constructor (rel: Rel)
      ensures this.rel == rel
    {
      this.rel := rel;
      prevrightlink, previncompletesplit, lowkey := None, false, None;
      chain, hits, downs := [], [], [];
    }

    /** Between downlinks. A downlink to block 0 ends the child level for the checker, so
        nothing is claimed from then on. */
    ghost predicate Linked()
      reads this
    {
      NoZero(downs) ==>
        Threaded(rel, chain, hits, downs) && Remembers(rel, chain, prevrightlink, previncompletesplit)
    }

    /** After the call that reads the child level to its end. */
    ghost predicate Finished()
      reads this
    {
      NoZero(downs) ==>
        && Threaded(rel, chain, hits, downs)
        && (chain != [] ==> chain[|chain| - 1] in rel && rel[chain[|chain| - 1]].next == 0)
    }

    /** bt_downlink_missing_check. */
    method DownlinkMissingCheck(rightsplit: bool, b: nat, steps: nat) returns (v: Verdict)
      requires Loadable(rel, b) && !Ignore(rel[b])
      ensures v.Accept? ==> rel[b].root || rightsplit || TopOfDeletion(rel, b)
      ensures Spacious(rel, steps) ==> !v.OutOfSteps?
    {
      hide Sinking;
      var page := rel[b];
      if page.root {
        return Accept;
      }
      if rightsplit {
        return Accept;
      }
      if page.leaf {
        return Corrupt;
      }
      var level := page.level;
      var childblk := Data(page)[0].link;
      ghost var path := [b, childblk];
      ghost var above := [b];
      var left := steps;
      SinkingOne(rel, b);
      while true
        invariant |path| >= 2 && path[0] == b && path[|path| - 1] == childblk
        invariant forall i | 0 <= i < |path| - 1 :: DescendsAt(rel, path, i)
        invariant |above| == steps - left + 1 && Sinking(rel, above)
        invariant above[|above| - 1] in rel && rel[above[|above| - 1]].level == level
        decreases left
      {
        if left == 0 {
          if Spacious(rel, steps) {
            SinkingFits(rel, above);
          }
          return OutOfSteps;
        }
        if !Loadable(rel, childblk) {
          return Corrupt;
        }
        var child := rel[childblk];
        if child.leaf {
          if child.deleted {
            return Corrupt;
          }
          if child.halfDead && child.next != 0 {
            if child.items != [] && child.items[0].link == b {
              assert DeletionPath(rel, path);
              return Accept;
            }
          }
          return Corrupt;
        }
        if child.level != LevelBelow(level) {
          return Corrupt;
        }
        level := child.level;
        if Data(child) == [] {
          return Corrupt;
        }
        ghost var longer := path + [Data(child)[0].link];
        PathGrows(rel, path, longer);
        path := longer;
        SinkingGrows(rel, above, childblk);
        above := above + [childblk];
        childblk := Data(child)[0].link;
        left := left - 1;
      }
    }

    /** The comparison of a child's high key with the parent's separator. At the call without
        a downlink there is no separator to compare with. */
    method HighKeyMatches(tp: Page, d: Option<nat>, arrived: bool, page: Page) returns (ok: bool)
      requires !tp.leaf && (arrived ==> d.Some?) && (d.Some? ==> d.value < |Data(tp)|) && page.next != 0
      ensures arrived ==> (ok <==> page.items != [] && Separates(tp, d.value, page.items[0].key))
    {
      if page.items == [] {
        return false;
      }
      if d.None? {
        return true;
      }
      var pivot := if arrived then d.value + 1 else d.value;
      if pivot != 0 {
        if pivot >= |Data(tp)| {
          if tp.next == 0 || tp.items == [] {
            return false;
          }
          return tp.items[0].key == page.items[0].key;
        }
        return Data(tp)[pivot].key == page.items[0].key;
      }
      return lowkey == Some(page.items[0].key);
    }

    /** The checks made on one page of the child level on the way to a downlink's page. */
    method VisitChild(tp: Page, d: Option<nat>, b: nat, downlink: nat, rightsplit: bool, first: bool, steps: nat)
      returns (v: Verdict)
      requires !tp.leaf && b != 0 && (d.Some? ==> d.value < |Data(tp)|)
      requires downlink == if d.Some? then Data(tp)[d.value].link else 0
      ensures v.Accept? ==> Loadable(rel, b) && (first && prevrightlink.None? ==> rel[b].prev == 0)
      ensures v.Accept? && b == downlink ==> Arrived(rel, tp, d.value)
      ensures v.Accept? && b != downlink ==> Ignore(rel[b]) || rel[b].root || rightsplit || TopOfDeletion(rel, b)
      ensures first && b == downlink && d.Some? && Reached(rel, tp, d.value, prevrightlink) ==> v.Accept?
      ensures Spacious(rel, steps) ==> !v.OutOfSteps?
    {
      hide Sane, Separates, TopOfDeletion, Data, Ignore, LevelBelow;
      if !Loadable(rel, b) {
        return Corrupt;
      }
      var page := rel[b];
      if first && prevrightlink.None? && page.prev != 0 {
        return Corrupt;
      }
      if !Ignore(page) && page.level != LevelBelow(tp.level) {
        return Corrupt;
      }
      if (!first && prevrightlink == Some(b)) || b == page.prev {
        return Corrupt;
      }
      if b != downlink && !Ignore(page) {
        v := DownlinkMissingCheck(rightsplit, b, steps);
        if !v.Accept? {
          return;
        }
      }
      if !page.incomplete && page.next != 0 {
        var ok := HighKeyMatches(tp, d, b == downlink, page);
        if !ok {
          return Corrupt;
        }
      }
      v := Accept;
    }

    /** bt_child_highkey_check for the d-th downlink of a target page, or without one after
        the last downlink of the level. */
    method ChildHighkeyCheck(tp: Page, d: Option<nat>, steps: nat) returns (v: Verdict)
      requires !tp.leaf && (d.Some? ==> d.value < |Data(tp)|) && Linked()
      modifies this
      ensures lowkey == old(lowkey)
      ensures v.Accept? && d.Some? ==> Linked() && downs == old(downs) + [Data(tp)[d.value].link]
      ensures v.Accept? && d.None? ==> Finished() && downs == old(downs) && prevrightlink.None?
      ensures v.Accept? && d.Some? && Data(tp)[d.value].link != 0 ==> Arrived(rel, tp, d.value)
      ensures d.Some? && Data(tp)[d.value].link == 0 && old(prevrightlink).None? ==> v.Accept? && prevrightlink.None?
      ensures d.Some? && v.Accept? ==> prevrightlink == if Data(tp)[d.value].link == 0 then None
                                                        else Some(NextOf(rel, Data(tp)[d.value].link))
      ensures steps > 0 && d.Some? && Reached(rel, tp, d.value, old(prevrightlink)) ==> v.Accept?
      ensures d.None? && old(prevrightlink) == Some(0) ==> v.Accept?
      ensures Spacious(rel, steps) && v.OutOfSteps? ==> SkipCircle(rel)
    {
      hide Threaded, Sane, Skippable, TopOfDeletion, Data, Ignore, NoZero, Arrived, Passing, SkipCircle,
        LevelBelow, Separates;
      ghost var direct := steps > 0 && d.Some? && Reached(rel, tp, d.value, prevrightlink);
      var downlink: nat := if d.Some? then Data(tp)[d.value].link else 0;
      var b: nat, rightsplit, first := downlink, false, true;
      if prevrightlink.Some? {
        b, rightsplit := prevrightlink.value, previncompletesplit;
      }
      ghost var cs: seq<nat> := chain;
      ghost var seen: seq<nat> := [];
      var left := steps;
      PassingNone(rel);
      while true
        invariant unchanged(this)
        invariant NoZero(downs) ==> Threaded(rel, cs, hits, downs) && At(rel, cs, downlink, b, rightsplit)
        invariant first ==> cs == chain
        invariant !first ==> cs != []
        invariant first && prevrightlink.None? ==> b == downlink
        invariant !first ==> prevrightlink.Some? || downlink != 0
        invariant direct ==> first && left == steps && b == downlink
        invariant d.None? && prevrightlink == Some(0) ==> b == 0
        invariant |seen| == steps - left && Passing(rel, seen)
        invariant seen != [] ==> CameFrom(rel, seen[|seen| - 1], b, rightsplit)
        decreases left
      {
        if b == 0 && downlink == 0 {
          prevrightlink, previncompletesplit, chain := None, false, cs;
          if d.Some? {
            ghost var added := downs + [0];
            ZeroAdded(downs);
            downs := added;
          }
          return Accept;
        }
        if b == 0 {
          return Corrupt;
        }
        if left == 0 {
          if Spacious(rel, steps) {
            PassingCircle(rel, seen);
          }
          return OutOfSteps;
        }
        v := VisitChild(tp, d, b, downlink, rightsplit, first, steps);
        if !v.Accept? {
          return;
        }
        var page := rel[b];
        ghost var before := rightsplit;
        rightsplit := page.incomplete;
        if b == downlink {
          ghost var added := downs + [b];
          if NoZero(added) {
            NoZeroFront(downs, b);
            ThreadHit(rel, cs, hits, downs, b);
          }
          prevrightlink, previncompletesplit := Some(page.next), rightsplit;
          chain, hits, downs := cs + [b], hits + [|cs|], added;
          return Accept;
        }
        if NoZero(downs) {
          Excused(rel, cs, downlink, b, before);
          ThreadSkip(rel, cs, hits, downs, b);
        }
        PassingGrows(rel, seen, b);
        seen := seen + [b];
        cs := cs + [b];
        b := page.next;
        first := false;
        left := left - 1;
      }
    }

    /** bt_child_check: the child is connected and the downlink's key is a strict lower bound. */
    method ChildCheck(tp: Page, d: nat, steps: nat) returns (v: Verdict)
      requires !tp.leaf && 0 < d < |Data(tp)| && Linked() && 0 !in rel
      modifies this
      ensures lowkey == old(lowkey)
      ensures v.Accept? ==> Linked() && downs == old(downs) + [Data(tp)[d].link] && ChildAgrees(rel, tp, d)
      ensures v.Accept? && Data(tp)[d].link != 0 ==> prevrightlink == Some(NextOf(rel, Data(tp)[d].link))
      ensures steps > 0 && Reached(rel, tp, d, old(prevrightlink)) && ChildAgrees(rel, tp, d) ==> v.Accept?
      ensures Spacious(rel, steps) && v.OutOfSteps? ==> SkipCircle(rel)
    {
      hide Sane, Separates, LevelBelow, Linked, SkipCircle;
      var childblock, targetkey := Data(tp)[d].link, Data(tp)[d].key;
      if !Loadable(rel, childblock) {
        return Corrupt;
      }
      var child := rel[childblock];
      v := ChildHighkeyCheck(tp, Some(d), steps);
      if !v.Accept? {
        return;
      }
      if child.deleted {
        return Corrupt;
      }
      var i := 0;
      while i < |Data(child)|
        invariant 0 <= i <= |Data(child)|
        invariant forall k | 0 <= k < i && Real(child, k) :: targetkey < Data(child)[k].key
      {
        if child.leaf || i > 0 {
          if !(targetkey < Data(child)[i].key) {
            return Corrupt;
          }
        }
        i := i + 1;
      }
      v := Accept;
    }

    /** bt_right_page_check_scankey: the first real item of the first live page to the right. */
    method RightFirstKey(tp: Page, steps: nat) returns (v: Verdict, key: Option<int>)
      ensures v.Accept? && tp.next != 0 ==>
                exists path :: RightPath(rel, tp.next, path) && key == FirstKey(rel[path[|path| - 1]])
      ensures tp.next == 0 ==> key.None?
      ensures tp.next == 0 || (steps > 0 && Live(rel, tp.next)) ==> v.Accept?
      ensures (exists path :: RightPath(rel, tp.next, path)) ==> !v.Corrupt?
      ensures v.OutOfSteps? <==> Blind(rel, tp.next, steps)
      ensures Spacious(rel, steps) && v.OutOfSteps? ==> SkipCircle(rel)
    {
      hide SkipCircle, Passing, Sane;
      if tp.next == 0 {
        return Accept, None;
      }
      var b, left := tp.next, steps;
      ghost var path := [b];
      ghost var known, whole := exists p :: RightPath(rel, tp.next, p), [b];
      if known {
        whole :| RightPath(rel, tp.next, whole);
      }
      ghost var endless, long := exists p :: PassedPath(rel, tp.next, p, steps), [b];
      if endless {
        long :| PassedPath(rel, tp.next, long, steps);
      }
      while true
        invariant path != [] && path[0] == tp.next && path[|path| - 1] == b
        invariant forall i | 0 <= i < |path| - 1 :: PassedAt(rel, path, i)
        invariant Live(rel, tp.next) ==> b == tp.next && left == steps
        invariant |path| == steps - left + 1 && (known ==> |path| <= |whole| && path == whole[..|path|])
        invariant endless ==> path == long[..|path|]
        decreases left
      {
        if left == 0 {
          if Spacious(rel, steps) {
            PassedIsPassing(rel, path, steps);
            PassingCircle(rel, path[..steps]);
          }
          assert PassedPath(rel, tp.next, path, steps);
          return OutOfSteps, None;
        }
        if known {
          PathGoesOn(rel, tp.next, path, whole);
        }
        if endless {
          PassedGoesOn(rel, tp.next, path, long, steps);
        }
        if !Loadable(rel, b) {
          return Corrupt, None;
        }
        if !Ignore(rel[b]) || rel[b].next == 0 {
          break;
        }
        PassedGrows(rel, path, rel[b].next);
        path := path + [rel[b].next];
        b, left := rel[b].next, left - 1;
      }
      var right := rel[b];
      if right.leaf && |Data(right)| >= 1 {
        key := Some(Data(right)[0].key);
      } else if !right.leaf && |Data(right)| >= 2 {
        key := Some(Data(right)[1].key);
      } else {
        key := None;
      }
      assert RightPath(rel, tp.next, path);
      v := Accept;
    }

    /** The comparisons made for one real item of the target page. */
    method ItemCheck(tp: Page, d: nat, steps: nat) returns (v: Verdict)
      requires Real(tp, d)
      ensures v.Accept? ==> ItemInOrder(tp, d) && (d == |Data(tp)| - 1 ==> CrossInOrder(rel, tp))
      ensures steps > 0 && ItemInOrder(tp, d) && CrossInOrder(rel, tp) && (tp.next != 0 ==> Live(rel, tp.next)) ==>
                v.Accept?
      ensures ItemInOrder(tp, d) && CrossInOrder(rel, tp) ==> !v.Corrupt?
      ensures v.OutOfSteps? <==> d == |Data(tp)| - 1 && ItemInOrder(tp, d) && Blind(rel, tp.next, steps)
      ensures ItemInOrder(tp, d) && d < |Data(tp)| - 1 ==> v.Accept?
      ensures Spacious(rel, steps) && v.OutOfSteps? ==> SkipCircle(rel)
    {
      hide Loadable, RightPath, Ignore, FirstKey, SkipCircle, Blind;
      var key := Data(tp)[d].key;
      if tp.next != 0 && tp.items != [] {
        if !(if tp.leaf then key <= tp.items[0].key else key < tp.items[0].key) {
          return Corrupt;
        }
      }
      if d + 1 < |Data(tp)| {
        if !(key < Data(tp)[d + 1].key) {
          return Corrupt;
        }
      } else {
        var rightkey;
        v, rightkey := RightFirstKey(tp, steps);
        if !v.Accept? {
          return;
        }
        LiveRight(rel, tp);
        OnePath(rel, tp.next);
        if rightkey.Some? && !(rightkey.value > key) {
          return Corrupt;
        }
      }
      v := Accept;
    }

    /** The links of the first n data items have been read. */
    ghost predicate Read(tp: Page, n: nat, before: seq<nat>)
      requires n <= |Data(tp)|
      reads this
    {
      if tp.leaf then downs == before else Linked() && downs == before + Links(tp, n)
    }

    /** bt_target_page_check on a live page. */
    method TargetPageCheck(tp: Page, steps: nat) returns (v: Verdict)
      requires Sane(tp) && !Ignore(tp) && 0 !in rel && (!tp.leaf ==> Linked())
      modifies this
      ensures lowkey == old(lowkey)
      ensures v.Accept? ==> InOrder(tp) && CrossInOrder(rel, tp)
      ensures v.Accept? && tp.leaf ==> unchanged(this)
      ensures v.Accept? && !tp.leaf ==> ChildrenAgree(rel, tp) && downs == old(downs) + Links(tp, |Data(tp)|)
      ensures v.Accept? && !tp.leaf ==> if tp.next == 0 then Finished() else Linked()
      ensures steps > 0 && PageReady(rel, tp, old(prevrightlink)) ==>
                v.Accept? && (!tp.leaf && tp.next != 0 ==> prevrightlink == After(rel, tp, |Data(tp)|, old(prevrightlink)))
      ensures tp.leaf && InOrder(tp) && CrossInOrder(rel, tp) ==> !v.Corrupt?
      ensures tp.leaf ==> (v.OutOfSteps? <==> InOrder(tp) && Data(tp) != [] && Blind(rel, tp.next, steps))
      ensures Spacious(rel, steps) && v.OutOfSteps? ==> SkipCircle(rel)
    {
      hide ItemInOrder, CrossInOrder, ChildAgrees, Linked, Finished, Separates, Loadable, Sane, Reached, Live, SkipCircle,
        Spacious, Blind;
      ghost var ready := steps > 0 && PageReady(rel, tp, prevrightlink);
      var d := 0;
      assert downs + Links(tp, 0) == downs;
      while d < |Data(tp)|
        invariant 0 <= d <= |Data(tp)| && lowkey == old(lowkey) && Read(tp, d, old(downs))
        invariant tp.leaf ==> unchanged(this)
        invariant forall k | 0 <= k < d && Real(tp, k) :: ItemInOrder(tp, k)
        invariant !tp.leaf ==> forall k | 0 <= k < d :: ChildAgrees(rel, tp, k)
        invariant d == |Data(tp)| && d > FirstReal(tp) ==> CrossInOrder(rel, tp)
        invariant tp.leaf && d == |Data(tp)| && d > 0 ==> !Blind(rel, tp.next, steps)
        invariant ready && !tp.leaf ==> prevrightlink == After(rel, tp, d, old(prevrightlink))
      {
        ReadyAt(rel, tp, d, old(prevrightlink));
        LinksGrow(tp, d, old(downs));
        if !tp.leaf && d == 0 {
          v := ChildHighkeyCheck(tp, Some(0), steps);
          if !v.Accept? {
            return;
          }
          FirstChild(rel, tp);
        } else {
          v := ItemCheck(tp, d, steps);
          if !v.Accept? {
            return;
          }
          if !tp.leaf {
            v := ChildCheck(tp, d, steps);
            if !v.Accept? {
              return;
            }
          }
        }
        d := d + 1;
      }
      NoLast(rel, tp);
      ReadyEnd(rel, tp, old(prevrightlink));
      if !tp.leaf && tp.next == 0 {
        v := ChildHighkeyCheck(tp, None, steps);
        return;
      }
      v := Accept;
    }
  }

  lemma {:induction false} SinkingOne(rel: Rel, b: nat)
    requires b in rel
    ensures Sinking(rel, [b])
  {
  }

  lemma {:induction false} PassingNone(rel: Rel)
    ensures Passing(rel, [])
  {
  }

  /** The walk on the child level has come from block a to block b. */
  ghost predicate CameFrom(rel: Rel, a: nat, b: nat, split: bool) {
    a in rel && rel[a].next == b && split == rel[a].incomplete
  }

  lemma {:induction false} PassedGoesOn(rel: Rel, b: nat, path: seq<nat>, long: seq<nat>, steps: nat)
    requires PassedPath(rel, b, long, steps) && 0 < |path| <= steps && path == long[..|path|]
    ensures var last := path[|path| - 1];
            && Loadable(rel, last) && Ignore(rel[last]) && rel[last].next != 0
            && path + [rel[last].next] == long[..|path| + 1]
  {
    hide Sane, Ignore;
    var n := |path| - 1;
    assert path[n] == long[n] && PassedAt(rel, long, n);
    assert long[..n + 2] == long[..n + 1] + [long[n + 1]];
  }

  /** The search for a live page follows the path that leads to it. */
  lemma {:induction false} PathGoesOn(rel: Rel, b: nat, path: seq<nat>, whole: seq<nat>)
    requires RightPath(rel, b, whole) && path != [] && |path| <= |whole| && path == whole[..|path|]
    ensures var last := path[|path| - 1];
            && Loadable(rel, last)
            && (Ignore(rel[last]) && rel[last].next != 0 ==>
                  |path| < |whole| && path + [rel[last].next] == whole[..|path| + 1])
  {
    hide Sane, Ignore;
    var n := |path| - 1;
    assert path[n] == whole[n];
    assert n < |whole| - 1 ==> PassedAt(rel, whole, n);
    if n < |whole| - 1 {
      assert whole[..n + 2] == whole[..n + 1] + [whole[n + 1]];
    }
  }

  lemma {:induction false} OnePath(rel: Rel, b: nat)
    ensures forall p, q | RightPath(rel, b, p) && RightPath(rel, b, q) :: p == q
  {
    hide RightPath;
    forall p, q | RightPath(rel, b, p) && RightPath(rel, b, q)
      ensures p == q
    {
      SamePath(rel, b, p, q);
    }
  }

  lemma {:induction false} PassedGrows(rel: Rel, path: seq<nat>, next: nat)
    requires path != [] && Loadable(rel, path[|path| - 1]) && Ignore(rel[path[|path| - 1]]) && next != 0
    requires rel[path[|path| - 1]].next == next && forall i | 0 <= i < |path| - 1 :: PassedAt(rel, path, i)
    ensures forall i | 0 <= i < |path + [next]| - 1 :: PassedAt(rel, path + [next], i)
  {
    var longer := path + [next];
    forall i | 0 <= i < |longer| - 1
      ensures PassedAt(rel, longer, i)
    {
      if i < |path| - 1 {
        assert PassedAt(rel, path, i);
      }
    }
  }

  /** A live right sibling ends the path at once. */
  lemma {:induction false} LiveRight(rel: Rel, p: Page)
    ensures p.next != 0 && Live(rel, p.next) ==> forall path | RightPath(rel, p.next, path) :: path == [p.next]
  {
    forall path | p.next != 0 && Live(rel, p.next) && RightPath(rel, p.next, path)
      ensures path == [p.next]
    {
      SamePath(rel, p.next, path, [p.next]);
    }
  }

  /** The block the walk on the child level is at: right of the last one, or the left end. */
  ghost predicate Expects(rel: Rel, right: Option<nat>, b: nat) {
    b in rel && (right == Some(b) || (right.None? && rel[b].prev == 0))
  }

  /** The walk is at the page of the d-th downlink already, and the page agrees with it. */
  ghost predicate Reached(rel: Rel, p: Page, d: nat, right: Option<nat>)
    requires d < |Data(p)|
  {
    var b := Data(p)[d].link;
    b != 0 && Arrived(rel, p, d) && Expects(rel, right, b) && rel[b].prev != b
  }

  /** Where the walk on the child level is expected after the first n downlinks of a page. */
  ghost function After(rel: Rel, p: Page, n: nat, right: Option<nat>): Option<nat>
    requires n <= |Data(p)|
  {
    if n == 0 then right else Some(NextOf(rel, Data(p)[n - 1].link))
  }

  /** A page that has all the properties that acceptance establishes, with every page of the
      child level under its own downlink. */
  ghost predicate PageReady(rel: Rel, p: Page, right: Option<nat>) {
    && InOrder(p) && CrossInOrder(rel, p) && (p.next != 0 ==> Live(rel, p.next))
    && (!p.leaf ==>
          && ChildrenAgree(rel, p) && Data(p) != []
          && (forall d | 0 <= d < |Data(p)| :: Reached(rel, p, d, After(rel, p, d, right)))
          && (p.next == 0 ==> After(rel, p, |Data(p)|, right) == Some(0)))
  }

  lemma {:induction false} ReadyAt(rel: Rel, p: Page, d: nat, right: Option<nat>)
    requires d < |Data(p)|
    ensures PageReady(rel, p, right) ==>
              && CrossInOrder(rel, p) && (p.next != 0 ==> Live(rel, p.next)) && (Real(p, d) ==> ItemInOrder(p, d))
              && (!p.leaf ==> Reached(rel, p, d, After(rel, p, d, right)) && ChildAgrees(rel, p, d) && Data(p)[d].link != 0)
  {
    hide ItemInOrder, CrossInOrder, ChildAgrees, Arrived, Expects, Live;
  }

  lemma {:induction false} ReadyEnd(rel: Rel, p: Page, right: Option<nat>)
    ensures PageReady(rel, p, right) && !p.leaf && p.next == 0 ==> After(rel, p, |Data(p)|, right) == Some(0)
  {
  }

  /** The links of the first n data items. */
  ghost function Links(p: Page, n: nat): (ls: seq<nat>)
    requires n <= |Data(p)|
    ensures |ls| == n && forall i | 0 <= i < n :: ls[i] == Data(p)[i].link
  {
    seq(n, i requires 0 <= i < n => Data(p)[i].link)
  }

  lemma {:induction false} LinksGrow(p: Page, d: nat, before: seq<nat>)
    requires d < |Data(p)|
    ensures before + Links(p, d + 1) == (before + Links(p, d)) + [Data(p)[d].link]
  {
    hide Data;
  }

  lemma {:induction false} FirstChild(rel: Rel, p: Page)
    requires |Data(p)| > 0 && (Data(p)[0].link != 0 ==> Arrived(rel, p, 0))
    ensures ChildAgrees(rel, p, 0)
  {
  }

  /** Without real items there is nothing to compare across pages. */
  lemma {:induction false} NoLast(rel: Rel, p: Page)
    ensures |Data(p)| <= FirstReal(p) ==> CrossInOrder(rel, p)
  {
  }

  lemma {:induction false} ZeroAdded(downs: seq<nat>)
    ensures !NoZero(downs + [0])
  {
    assert (downs + [0])[|downs|] == 0;
  }

  lemma {:induction false} NoZeroFront(downs: seq<nat>, b: nat)
    requires NoZero(downs + [b])
    ensures NoZero(downs)
  {
    forall k | 0 <= k < |downs|
      ensures downs[k] != 0
    {
      assert (downs + [b])[k] == downs[k];
    }
  }

  lemma {:induction false} Excused(rel: Rel, cs: seq<nat>, downlink: nat, b: nat, split: bool)
    requires At(rel, cs, downlink, b, split) && b in rel
    requires Ignore(rel[b]) || rel[b].root || split || TopOfDeletion(rel, b)
    ensures Skippable(rel, cs + [b], |cs|)
  {
    hide TopOfDeletion, Ignore;
  }

  /** What reading up to a downlink's page establishes about it. */
  ghost predicate Arrived(rel: Rel, p: Page, d: nat)
    requires d < |Data(p)|
  {
    var b := Data(p)[d].link;
    && Loadable(rel, b)
    && (!Ignore(rel[b]) ==> rel[b].level == LevelBelow(p.level))
    && (!rel[b].incomplete && rel[b].next != 0 ==> rel[b].items != [] && Separates(p, d, rel[b].items[0].key))
  }

  ghost function NextOf(rel: Rel, b: nat): nat {
    if b in rel then rel[b].next else 0
  }

  lemma {:induction false} PathGrows(rel: Rel, path: seq<nat>, longer: seq<nat>)
    requires |path| >= 2 && |longer| == |path| + 1 && longer[..|path|] == path
    requires forall i | 0 <= i < |path| - 1 :: DescendsAt(rel, path, i)
    requires var last := path[|path| - 1];
             last in rel && !rel[last].leaf && Data(rel[last]) != [] && Data(rel[last])[0].link == longer[|path|]
    ensures forall i | 0 <= i < |longer| - 1 :: DescendsAt(rel, longer, i)
  {
    forall i | 0 <= i < |longer| - 1
      ensures DescendsAt(rel, longer, i)
    {
      assert forall k | 0 <= k < |path| :: longer[k] == longer[..|path|][k];
      if i < |path| - 1 {
        assert DescendsAt(rel, path, i);
      }
    }
  }
}
