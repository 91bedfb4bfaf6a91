/**
 Bloom index pages (contrib/bloom/bloom.h, blutils.c, blvacuum.c): a page is a
 counted run of equal-sized tuples plus a deleted flag.
 */
module BloomPage {

  /** A uint16 signature word, as the set of its set bits: `|` is union and `&` is
      intersection. */
  type Word = set<nat>
  type Tid = nat

  /** An index tuple: the heap pointer and the signature words. */
  datatype Tuple = Tuple(heapPtr: Tid, sign: seq<Word>)

  /** `NewPage` is an all-zero page (PageIsNew); on a data page maxoff is |items|. */
  datatype Page = NewPage | DataPage(deleted: bool, items: seq<Tuple>)

  const BLCKSZ: int := 8192
  const PAGE_HEADER: int := 24
  const PAGE_OPAQUE: int := 8

  /** BloomPageGetFreeSpace. */
  function FreeSpace(size: nat, maxoff: nat): int {
    BLCKSZ - PAGE_HEADER - maxoff * size - PAGE_OPAQUE
  }

  predicate Fits(size: nat, maxoff: nat) {
    FreeSpace(size, maxoff) >= size
  }

  /** How many tuples a page has room for. */
  function Capacity(size: nat): nat
    requires size > 0
  {
    (BLCKSZ - PAGE_HEADER - PAGE_OPAQUE) / size
  }

  lemma {:induction false} FitsIffBelowCapacity(size: nat, maxoff: nat)
    requires size > 0
    ensures Fits(size, maxoff) <==> maxoff < Capacity(size)
  {
    var room := BLCKSZ - PAGE_HEADER - PAGE_OPAQUE;
    assert room == size * Capacity(size) + room % size;
    if maxoff < Capacity(size) {
      assert size * (maxoff + 1) <= size * Capacity(size);
    } else {
      assert size * maxoff >= size * Capacity(size);
    }
    assert size * (maxoff + 1) == maxoff * size + size;
  }

  /** The tuples a page stores. */
  function Items(page: Page): (s: seq<Tuple>) {
    if page.NewPage? then [] else page.items
  }

  predicate Reusable(page: Page) {
    page.NewPage? || page.deleted
  }

  /** Reinitialise when the page is new or deleted (BloomInitPage clears every flag). */
  function Prepared(page: Page): (p: Page)
    ensures p.DataPage? && !p.deleted
  {
    if Reusable(page) then DataPage(false, []) else page
  }

  /** Prepare the page and append a tuple, or report that it does not fit. */
  function Appended(page: Page, t: Tuple): (p: Page)
    ensures p.DataPage? && !p.deleted
  {
    DataPage(false, Prepared(page).items + [t])
  }

  /** The tuples left by bulk deletion, in their old order. */
  function Survivors(items: seq<Tuple>, dead: set<Tid>): (s: seq<Tuple>)
    ensures |s| <= |items|
  {
    if items == [] then []
    else
      var rest := Survivors(items[..|items| - 1], dead);
      var last := items[|items| - 1];
      if last.heapPtr in dead then rest else rest + [last]
  }

  /** The tuples taken out by bulk deletion. */
  function Victims(items: seq<Tuple>, dead: set<Tid>): (s: seq<Tuple>) {
    if items == [] then []
    else
      var rest := Victims(items[..|items| - 1], dead);
      var last := items[|items| - 1];
      if last.heapPtr in dead then rest + [last] else rest
  }

  /** One page of blbulkdelete: new and deleted pages are left alone, and a page is
      flagged deleted when something was removed and nothing is left. */
  function Vacuumed(page: Page, dead: set<Tid>): (p: Page) {
    if Reusable(page) then page
    else
      var rest := Survivors(page.items, dead);
      DataPage(|rest| < |page.items| && rest == [], rest)
  }

  /** A page that bulk deletion offers for insertions: in use, and below its capacity. */
  predicate Offered(size: nat, page: Page) {
    size > 0 && page.DataPage? && !page.deleted && 0 < |page.items| < Capacity(size)
  }

  /** Bulk deletion splits the stored tuples: nothing is lost and nothing is invented. */
  lemma {:induction false} SurvivorsAndVictims(items: seq<Tuple>, dead: set<Tid>)
    ensures multiset(items) == multiset(Survivors(items, dead)) + multiset(Victims(items, dead))
  {
    if items != [] {
      var front, last := items[..|items| - 1], items[|items| - 1];
      SurvivorsAndVictims(front, dead);
      assert items == front + [last];
    }
  }

  /** Each tuple goes to the side its heap pointer decides. */
  lemma {:induction false} SurvivorOrVictim(items: seq<Tuple>, dead: set<Tid>, t: Tuple)
    ensures t in Survivors(items, dead) <==> t in items && t.heapPtr !in dead
    ensures t in Victims(items, dead) <==> t in items && t.heapPtr in dead
  {
    if items != [] {
      var front, last := items[..|items| - 1], items[|items| - 1];
      SurvivorOrVictim(front, dead, t);
      assert items == front + [last];
    }
  }

  /** Each of the picks is a later element than the one before. */
  ghost predicate PicksFrom(picks: seq<nat>, part: seq<Tuple>, items: seq<Tuple>) {
    && |picks| == |part| && (forall k | 0 <= k < |picks| :: picks[k] < |items| && items[picks[k]] == part[k])
    && forall k, m | 0 <= k < m < |picks| :: picks[k] < picks[m]
  }

  lemma {:induction false} Extend(items: seq<Tuple>, k: nat, dead: set<Tid>)
    requires k < |items|
    ensures Survivors(items[..k + 1], dead)
         == Survivors(items[..k], dead) + (if items[k].heapPtr in dead then [] else [items[k]])
    ensures Victims(items[..k + 1], dead)
         == Victims(items[..k], dead) + (if items[k].heapPtr in dead then [items[k]] else [])
  {
    assert items[..k + 1][..k] == items[..k];
  }

  lemma {:induction false} NoItems(dead: set<Tid>)
    ensures Survivors([], dead) == [] && Victims([], dead) == []
  {
  }

  /** A page buffer: BloomPageAddItem and the compaction loop of blbulkdelete run in
      place on its tuple slots. */
  class PageBuffer {
    const size: nat
    var slots: array<Tuple>
    var maxoff: nat
    var deleted: bool

    ghost predicate Valid()
      reads this
    {
      size > 0 && slots.Length == Capacity(size) && maxoff <= slots.Length
    }

    ghost function Contents(): Page
      reads this, slots
      requires Valid()
    {
      DataPage(deleted, slots[..maxoff])
    }

    /** BloomInitPage. */
    constructor (size: nat)
      requires size > 0
      ensures Valid() && fresh(slots) && this.size == size
      ensures Contents() == DataPage(false, [])
    {
      this.size := size;
      slots := new Tuple[Capacity(size)];
      maxoff := 0;
      deleted := false;
    }

    /** Appends exactly when the free-space macro says the tuple fits. */
    method AddItem(t: Tuple) returns (added: bool)
      requires Valid() && !deleted
      modifies this`maxoff, slots
      ensures Valid() && slots == old(slots)
      ensures added <==> Fits(size, old(maxoff))
      ensures added ==> Contents() == Appended(old(Contents()), t)
      ensures !added ==> Contents() == old(Contents())
    {
      FitsIffBelowCapacity(size, maxoff);
      if FreeSpace(size, maxoff) < size {
        return false;
      }
      slots[maxoff] := t;
      maxoff := maxoff + 1;
      assert slots[..maxoff] == old(slots[..maxoff]) + [t];
      return true;
    }

    /** The compaction loop: `itup` reads, `itupPtr` writes, maxoff counts down.
        The write cursor never overtakes the read cursor. */
    method Compact(dead: set<Tid>) returns (removed: nat)
      requires maxoff <= slots.Length
      modifies this`maxoff, slots
      ensures maxoff <= slots.Length && slots == old(slots)
      ensures slots[..maxoff] == Survivors(old(slots[..maxoff]), dead)
      ensures removed == |Victims(old(slots[..maxoff]), dead)| == old(maxoff) - maxoff
    {
      hide Survivors, Victims;
      ghost var items := slots[..maxoff];
      NoItems(dead);
      assert items[..0] == [];
      var itup, itupPtr, itupEnd := 0, 0, maxoff;
      removed := 0;
      while itup < itupEnd
        invariant 0 <= itupPtr <= itup <= itupEnd == |items| <= slots.Length
        invariant slots == old(slots)
        invariant maxoff == itupEnd - removed && removed == itup - itupPtr
        invariant slots[..itupPtr] == Survivors(items[..itup], dead)
        invariant forall k :: itup <= k < itupEnd ==> slots[k] == items[k]
        invariant removed == |Victims(items[..itup], dead)|
      {
        Extend(items, itup, dead);
        if slots[itup].heapPtr in dead {
          maxoff := maxoff - 1;
          removed := removed + 1;
        } else {
          ghost var kept := slots[..itupPtr];
          if itupPtr != itup {
            slots[itupPtr] := slots[itup];
          }
          itupPtr := itupPtr + 1;
          assert slots[..itupPtr] == kept + [items[itup]];
        }
        itup := itup + 1;
      }
      assert items[..itup] == items;
    }

    /** One page of blbulkdelete: compact, decide whether the page goes on the
        not-full list, and flag it when it was emptied. */
    method BulkDelete(dead: set<Tid>) returns (removed: nat, listed: bool)
      requires Valid() && !deleted
      modifies this`maxoff, this`deleted, slots
      ensures Valid() && slots == old(slots)
      ensures Contents() == Vacuumed(old(Contents()), dead)
      ensures removed == |Victims(old(Contents()).items, dead)|
      ensures listed <==> Offered(size, Contents())
    {
      removed := Compact(dead);
      FitsIffBelowCapacity(size, maxoff);
      listed := maxoff != 0 && FreeSpace(size, maxoff) >= size;
      if removed > 0 && maxoff == 0 {
        deleted := true;
      }
    }
  }
}
