/**
 Building a bloom index (contrib/bloom/blinsert.c): tuples collect on one cached page
 that is flushed to the end of the file when it is full.
 */
module BloomBuild {
  import opened Wrappers
  import opened BloomPage
  import opened BloomIndex

  /** The build state: the file written so far and the cached page. */
  class Builder {
    const size: nat
    var file: seq<Page>
    var cached: PageBuffer
    var count: nat

    ghost predicate Valid()
      reads this, cached
    {
      && 8 <= size <= 518 && cached.Valid() && cached.size == size && !cached.deleted
      && count == cached.maxoff
      && |file| >= 1 && file[0] == NewPage
      && forall i | 0 <= i < |file| :: PageOk(size, file[i])
    }

    /** What has been indexed: the flushed tuples and those still on the cached page. */
    ghost function Indexed(): multiset<Tuple>
      reads this, cached, cached.slots
      requires Valid()
    {
      Stored(file) + multiset(cached.Contents().items)
    }

    constructor (size: nat)
      requires 8 <= size <= 518
      ensures Valid() && this.size == size && count == 0
      ensures Indexed() == multiset{}
      ensures fresh(cached) && fresh(cached.slots)
    {
      this.size := size;
      file := [NewPage];
      cached := new PageBuffer(size);
      count := 0;
      new;
      EmptyPageFits(size);
      StoredExtend([], NewPage);
      assert [] + [NewPage] == file;
    }

    /** flushCachedPage: the file has no free pages during a build, so it is extended. */
    method Flush()
      requires Valid()
      modifies this`file
      ensures Valid()
      ensures file == old(file) + [cached.Contents()]
    {
      file := file + [DataPage(cached.deleted, cached.slots[..cached.maxoff])];
    }

    /** bloomBuildCallback: the tuple goes to the cached page, or to a fresh one after a
        flush; the error for a tuple that does not fit an empty page is never raised. */
    method Add(t: Tuple)
      requires Valid()
      modifies this`file, this`cached, this`count, cached, cached.slots
      ensures Valid() && count > 0
      ensures fresh(cached) || (cached == old(cached))
      ensures fresh(cached.slots) || (cached.slots == old(cached.slots))
      ensures Indexed() == old(Indexed()) + multiset{t}
    {
      hide Stored, PageOk, Fits, Capacity;
      var added := cached.AddItem(t);
      if added {
        count := count + 1;
      } else {
        AddFresh(t);
      }
    }

    /** The full page is flushed and the tuple starts the next one. */
    method AddFresh(t: Tuple)
      requires Valid()
      modifies this`file, this`cached, this`count
      ensures Valid() && count == 1 && fresh(cached) && fresh(cached.slots)
      ensures Indexed() == old(Indexed()) + multiset{t}
    {
      hide Stored, PageOk, Fits, Capacity;
      StoredExtend(file, cached.Contents());
      Flush();
      EmptyPageFits(size);
      cached := new PageBuffer(size);
      var added := cached.AddItem(t);
      assert added;
      assert cached.Contents().items == [t];
      count := 1;
    }
  }

  /** The last page is flushed unless the heap was empty. */
  method Finish(b: Builder)
    requires b.Valid()
    modifies b`file
    ensures b.Valid() && Stored(b.file) == old(b.Indexed())
  {
    if b.count > 0 {
      StoredExtend(b.file, b.cached.Contents());
      b.Flush();
    }
  }

  lemma {:induction false} PrefixGrows(heap: seq<Tuple>, i: nat)
    requires i < |heap|
    ensures multiset(heap[..i + 1]) == multiset(heap[..i]) + multiset{heap[i]}
  {
    assert heap[..i + 1] == heap[..i] + [heap[i]];
  }

  /** The heap scan: every tuple goes through the callback. */
  method AddAll(size: nat, heap: seq<Tuple>) returns (b: Builder)
    requires 8 <= size <= 518
    ensures fresh(b) && b.Valid() && b.size == size
    ensures b.Indexed() == multiset(heap)
  {
    b := new Builder(size);
    for i := 0 to |heap|
      invariant fresh(b) && fresh(b.cached) && fresh(b.cached.slots)
      invariant b.Valid() && b.size == size
      invariant b.Indexed() == multiset(heap[..i])
    {
      PrefixGrows(heap, i);
      b.Add(heap[i]);
    }
    assert heap[..|heap|] == heap;
  }

  /** blbuild: the index starts out holding exactly the tuples of the heap scan. */
  method Build(size: nat, heap: seq<Tuple>) returns (s: State)
    requires 8 <= size <= 518
    ensures Init(s) && s.size == size
    ensures Stored(s.pages) == multiset(heap)
  {
    var b := AddAll(size, heap);
    Finish(b);
    s := State(size, b.file, Meta(0, 0, seq(META_BLOCKS, _ => 0)), None, {}, map[], multiset(heap), multiset{});
  }
}
