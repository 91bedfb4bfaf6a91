/**
 What a packed hstore means: a finite map from keys to optional values. The order of the
 keys is by length first and by bytes second (comparePairs in contrib/hstore/hstore_io.c).
 A canonical value is the packed form of a strictly ordered list, so each map has one.
 */
module HstoreMap {
  import opened Wrappers
  import opened ByteOrder
  import opened HstoreFormat

  // ----- comparing -----

  /** The order of keys. */
  function KeyCmp(a: bytes, b: bytes): int {
    if |a| == |b| then Lex(a, b) else if |a| > |b| then 1 else -1
  }

  predicate Less(a: bytes, b: bytes) {
    KeyCmp(a, b) < 0
  }

  lemma {:induction false} KeyCmpEqual(a: bytes, b: bytes)
    ensures KeyCmp(a, b) == 0 <==> a == b
    ensures KeyCmp(a, b) == -KeyCmp(b, a)
  {
    LexFromEqual(a, b, 0);
    LexFromReverse(a, b, 0);
  }

  /** A shorter key comes first, and of two keys of the same length the one with the smaller byte
      at the first difference. */
  lemma {:induction false} LessMeans(a: bytes, b: bytes)
    ensures Less(a, b) <==>
              |a| < |b| || (|a| == |b| && exists i: nat :: i < |a| && PartsBelow(a, b, i))
  {
    LexFirstDifference(a, b);
    if |a| == |b| && Lex(a, b) < 0 {
      var i: nat :| PartsBelow(a, b, i);
      assert i < |a|;
    }
  }

  lemma {:induction false} LessTransitive(a: bytes, b: bytes, c: bytes)
    requires Less(a, b) && Less(b, c)
    ensures Less(a, c)
  {
    if |a| == |b| == |c| {
      LexFromTransitive(a, b, c, 0);
    }
  }

  lemma {:induction false} LessIrreflexive(a: bytes, b: bytes)
    requires Less(a, b)
    ensures a != b && !Less(b, a)
  {
    KeyCmpEqual(a, b);
  }

  // ----- ordered lists -----

  ghost predicate Sorted(ps: seq<Pair>) {
    forall i, j | 0 <= i < j < |ps| :: Less(ps[i].key, ps[j].key)
  }

  /** The pair at i has key k. */
  ghost predicate KeyIs(ps: seq<Pair>, i: nat, k: bytes) {
    i < |ps| && ps[i].key == k
  }

  ghost function ToMap(ps: seq<Pair>): map<bytes, Option<bytes>> {
    if ps == [] then map[] else ToMap(ps[..|ps| - 1])[ps[|ps| - 1].key := ps[|ps| - 1].val]
  }

  lemma {:induction false} ToMapKey(ps: seq<Pair>, k: bytes) returns (i: nat)
    requires k in ToMap(ps)
    ensures KeyIs(ps, i, k)
  {
    i := |ps| - 1;
    if ps[i].key != k {
      var front := ps[..i];
      i := ToMapKey(front, k);
    }
  }

  lemma {:induction false} ToMapAt(ps: seq<Pair>, i: nat)
    requires i < |ps| && Sorted(ps)
    ensures ps[i].key in ToMap(ps) && ToMap(ps)[ps[i].key] == ps[i].val
  {
    var n := |ps| - 1;
    if i < n {
      hide Less;
      var front := ps[..n];
      assert front[i] == ps[i];
      ToMapAt(front, i);
      assert Less(ps[i].key, ps[n].key);
      LessIrreflexive(ps[i].key, ps[n].key);
    }
  }

  /** The largest key of an ordered list stands last, so the map determines the list. */
  lemma {:induction false} SortedUnique(ps: seq<Pair>, qs: seq<Pair>)
    requires Sorted(ps) && Sorted(qs) && ToMap(ps) == ToMap(qs)
    ensures ps == qs
    decreases |ps|
  {
    hide Less;
    if ps == [] {
      if qs != [] {
        ToMapAt(qs, 0);
      }
    } else {
      ToMapAt(ps, 0);
      var m, n := |ps| - 1, |qs| - 1;
      LastKey(ps, qs);
      LastKey(qs, ps);
      LastAgree(ps[m].key, qs[n].key);
      ToMapAt(ps, m);
      ToMapAt(qs, n);
      FrontMap(ps);
      FrontMap(qs);
      SortedUnique(ps[..m], qs[..n]);
      assert ps == ps[..m] + [ps[m]] && qs == qs[..n] + [qs[n]];
    }
  }

  lemma {:induction false} LastAgree(a: bytes, b: bytes)
    requires !Less(a, b) && !Less(b, a)
    ensures a == b
  {
    KeyCmpEqual(a, b);
  }

  lemma {:induction false} LastKey(ps: seq<Pair>, qs: seq<Pair>)
    requires Sorted(ps) && Sorted(qs) && ToMap(ps) == ToMap(qs) && ps != []
    ensures qs != [] && !Less(qs[|qs| - 1].key, ps[|ps| - 1].key)
  {
    hide Less, ToMap;
    var m := |ps| - 1;
    ToMapAt(ps, m);
    var j := ToMapKey(qs, ps[m].key);
    assert j < |qs| - 1 ==> Less(qs[j].key, qs[|qs| - 1].key);
    if Less(qs[|qs| - 1].key, ps[m].key) {
      LessIrreflexive(qs[|qs| - 1].key, ps[m].key);
    }
  }

  lemma {:induction false} FrontMap(ps: seq<Pair>)
    requires Sorted(ps) && ps != []
    ensures ToMap(ps[..|ps| - 1]) == map k | k in ToMap(ps) && k != ps[|ps| - 1].key :: ToMap(ps)[k]
  {
    hide Less;
    var front, last := ps[..|ps| - 1], ps[|ps| - 1];
    if last.key in ToMap(front) {
      var i := ToMapKey(front, last.key);
      assert Less(ps[i].key, last.key);
      LessIrreflexive(ps[i].key, last.key);
      assert false;
    }
  }

  // ----- canonical values -----

  /** The packed form of a strictly ordered list, with contiguous offsets and exact size. */
  ghost predicate Canonical(h: HStore) {
    && |h.entries| == 2 * Count(h)
    && Sorted(Decode(h)) && Fits(Decode(h)) && h == Pack(Decode(h))
  }

  ghost function MapOf(h: HStore): map<bytes, Option<bytes>>
    requires |h.entries| == 2 * Count(h)
  {
    ToMap(Decode(h))
  }

  lemma {:induction false} PackIsCanonical(ps: seq<Pair>)
    requires Sorted(ps) && Fits(ps)
    ensures Canonical(Pack(ps)) && Decode(Pack(ps)) == ps && MapOf(Pack(ps)) == ToMap(ps)
  {
    hide Sorted, Fits, Pack, Decode, ToMap;
    DecodePack(ps);
  }

  /** Equal maps have identical packed values. */
  lemma {:induction false} CanonicalUnique(h: HStore, g: HStore)
    requires Canonical(h) && Canonical(g)
    ensures MapOf(h) == MapOf(g) <==> h == g
  {
    hide Sorted, Fits, Pack, Decode, ToMap;
    if MapOf(h) == MapOf(g) {
      SortedUnique(Decode(h), Decode(g));
    }
  }

  /** Reading a canonical value: the accessors give the pairs of its list. */
  lemma {:induction false} ReadCanonical(h: HStore, i: nat)
    requires Canonical(h) && i < Count(h)
    ensures |Decode(h)| == Count(h) && PairAt(h, i) == Decode(h)[i]
    ensures KeyAt(h, i) == Decode(h)[i].key && ValBytesAt(h, i) == ValBytes(Decode(h)[i].val)
    ensures NullAt(h, i) == Decode(h)[i].val.None?
    ensures Slice(h.str, Off(h, 2 * i), EndPos(h.entries[2 * i + 1])) == Item(Decode(h)[i])
  {
    assert |Decode(h)| == Count(h);
    hide Sorted, Fits, Pack, PairAt, KeyAt, ValBytesAt, NullAt, Decode, Slice, Off, EndPos, Item, ValBytes;
    ReadPacked(Decode(h), i);
    ReadItem(Decode(h), i);
  }

  // ----- sublists and sizes -----

  ghost function TotalSize(ps: seq<Pair>): nat {
    8 * |ps| + |Str(ps)|
  }

  lemma {:induction false} TotalSizeSnoc(ps: seq<Pair>, p: Pair)
    ensures TotalSize(ps + [p]) == TotalSize(ps) + 8 + |Item(p)|
  {
    hide RawEntries;
    WrittenGrows(ps, p);
  }

  lemma {:induction false} TotalSizeEmpty()
    ensures TotalSize([]) == 0
  {
  }

  /** The pairs that pass a test, in order. */
  ghost function Filter(ps: seq<Pair>, keep: Pair -> bool): seq<Pair> {
    if ps == [] then []
    else
      var p := ps[|ps| - 1];
      Filter(ps[..|ps| - 1], keep) + (if keep(p) then [p] else [])
  }

  lemma {:induction false} FilterSnoc(ps: seq<Pair>, p: Pair, keep: Pair -> bool)
    ensures Filter(ps + [p], keep) == Filter(ps, keep) + (if keep(p) then [p] else [])
  {
    assert (ps + [p])[..|ps|] == ps;
  }

  /** A filtered list is made of kept pairs of the list, and has all of them. */
  lemma {:induction false} FilterMembers(ps: seq<Pair>, keep: Pair -> bool, p: Pair)
    ensures p in Filter(ps, keep) <==> p in ps && keep(p)
  {
    if ps != [] {
      FilterMembers(ps[..|ps| - 1], keep, p);
      assert ps == ps[..|ps| - 1] + [ps[|ps| - 1]];
    }
  }

  lemma {:induction false} FilterSorted(ps: seq<Pair>, keep: Pair -> bool)
    requires Sorted(ps)
    ensures Sorted(Filter(ps, keep))
    ensures TotalSize(Filter(ps, keep)) <= TotalSize(ps)
  {
    hide Less, TotalSize;
    if ps != [] {
      var front, p := ps[..|ps| - 1], ps[|ps| - 1];
      FilterSorted(front, keep);
      assert ps == front + [p];
      assert Filter(ps, keep) == Filter(front, keep) + (if keep(p) then [p] else []);
      TotalSizeSnoc(front, p);
      if keep(p) {
        var f := Filter(front, keep);
        TotalSizeSnoc(f, p);
        forall i | 0 <= i < |f|
          ensures Less(f[i].key, p.key)
        {
          FilterMembers(front, keep, f[i]);
          var k :| 0 <= k < |front| && front[k] == f[i];
          assert Less(ps[k].key, p.key);
        }
      } else {
        assert Filter(ps, keep) == Filter(front, keep);
      }
    }
  }

  /** Filtering restricts the map. */
  lemma {:induction false} FilterMap(ps: seq<Pair>, keep: Pair -> bool)
    requires Sorted(ps)
    ensures Sorted(Filter(ps, keep))
    ensures ToMap(Filter(ps, keep)) == map k | k in ToMap(ps) && keep(Pair(k, ToMap(ps)[k])) :: ToMap(ps)[k]
  {
    FilterSorted(ps, keep);
    hide Sorted, ToMap, Filter;
    var f := Filter(ps, keep);
    forall k | k in ToMap(f)
      ensures k in ToMap(ps) && ToMap(ps)[k] == ToMap(f)[k] && keep(Pair(k, ToMap(ps)[k]))
    {
      var i := ToMapKey(f, k);
      ToMapAt(f, i);
      FilterMembers(ps, keep, f[i]);
      var j :| 0 <= j < |ps| && ps[j] == f[i];
      ToMapAt(ps, j);
    }
    forall k | k in ToMap(ps) && keep(Pair(k, ToMap(ps)[k]))
      ensures k in ToMap(f)
    {
      var j := ToMapKey(ps, k);
      ToMapAt(ps, j);
      FilterMembers(ps, keep, ps[j]);
      var i :| 0 <= i < |f| && f[i] == ps[j];
      ToMapAt(f, i);
    }
  }
}
