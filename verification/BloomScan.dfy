/**
 The inner loops of a bloom scan (blgetbitmap in contrib/bloom/blscan.c): which tuples of one page
 a scan reports.
 */
module BloomScan {
  import opened BloomPage
  import opened BloomSignature
  import opened BloomIndex

  /** The word loop: stop at the first word that lacks a scan bit. */
  method SignatureMatches(sign: seq<Word>, scan: seq<Word>) returns (res: bool)
    requires |sign| == |scan|
    ensures res <==> Covers(sign, scan)
  {
    res := true;
    var i := 0;
    while i < |scan|
      invariant 0 <= i <= |scan| && res
      invariant forall k | 0 <= k < i :: sign[k] * scan[k] == scan[k]
    {
      if sign[i] * scan[i] != scan[i] {
        return false;
      }
      i := i + 1;
    }
  }

  /** The tuples of a list that cover the scan signature, in order. */
  function Reported(items: seq<Tuple>, scan: seq<Word>): seq<Tid> {
    if items == [] then []
    else
      var t := items[|items| - 1];
      Reported(items[..|items| - 1], scan) + (if Covers(t.sign, scan) then [t.heapPtr] else [])
  }

  lemma {:induction false} ReportedStep(items: seq<Tuple>, i: nat, scan: seq<Word>)
    requires i < |items|
    ensures Reported(items[..i + 1], scan) ==
            Reported(items[..i], scan) + (if Covers(items[i].sign, scan) then [items[i].heapPtr] else [])
  {
    assert items[..i + 1][..i] == items[..i];
  }

  /** What a page reports is what the scan step of the transition system adds. */
  lemma {:induction false} ReportedIsMatches(items: seq<Tuple>, scan: seq<Word>)
    ensures (set tid | tid in Reported(items, scan)) == set t | t in items && Covers(t.sign, scan) :: t.heapPtr
  {
    hide Covers;
    if items != [] {
      var front, t := items[..|items| - 1], items[|items| - 1];
      ReportedIsMatches(front, scan);
      assert items == front + [t];
      var here := set u | u in items && Covers(u.sign, scan) :: u.heapPtr;
      var there := set u | u in front && Covers(u.sign, scan) :: u.heapPtr;
      assert here == there + (if Covers(t.sign, scan) then {t.heapPtr} else {});
      var last := if Covers(t.sign, scan) then [t.heapPtr] else [];
      assert (set tid | tid in Reported(items, scan)) ==
             (set tid | tid in Reported(front, scan)) + (set tid | tid in last);
    } else {
      assert Reported(items, scan) == [];
    }
  }

  /** One page: new and deleted pages report nothing; the count is the number of tuples added to
      the bitmap. */
  method ScanOnePage(page: Page, scan: seq<Word>) returns (tids: seq<Tid>, ntids: nat)
    requires forall t | t in Items(page) :: |t.sign| == |scan|
    ensures (set tid | tid in tids) == Matches(page, scan)
    ensures ntids == |tids| && tids == Reported(if Reusable(page) then [] else Items(page), scan)
  {
    tids, ntids := [], 0;
    if Reusable(page) {
      return;
    }
    hide Covers, Reported;
    var items := page.items;
    var offset := 0;
    NoneReported(scan);
    assert items[..0] == [];
    while offset < |items|
      invariant 0 <= offset <= |items| && ntids == |tids| && tids == Reported(items[..offset], scan)
    {
      ReportedStep(items, offset, scan);
      assert items[offset] in Items(page);
      var res := SignatureMatches(items[offset].sign, scan);
      if res {
        tids := tids + [items[offset].heapPtr];
        ntids := ntids + 1;
      }
      offset := offset + 1;
    }
    assert items[..offset] == items;
    ReportedIsMatches(items, scan);
  }

  lemma {:induction false} NoneReported(scan: seq<Word>)
    ensures Reported([], scan) == []
  {
  }
}
