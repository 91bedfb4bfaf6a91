/**
 Operations on packed hstores (contrib/hstore/hstore_op.c): binary search with a carried
 lower bound, the tests built on it, and the removal of one key. Each works on the packed
 form; its contract is about maps.
 */
module HstoreOps {
  import opened Wrappers
  import opened ByteOrder
  import opened HstoreFormat
  import opened HstoreMap

  // ----- searching -----

  /** All keys before i are below the key. */
  ghost predicate BelowUpTo(ps: seq<Pair>, i: int, key: bytes) {
    i <= |ps| && forall k | 0 <= k < i :: Less(ps[k].key, key)
  }

  /** All keys from i on are above the key. */
  ghost predicate AboveFrom(ps: seq<Pair>, i: int, key: bytes) {
    0 <= i && forall k | i <= k < |ps| :: Less(key, ps[k].key)
  }

  lemma {:induction false} BelowMiddle(ps: seq<Pair>, mid: nat, key: bytes)
    requires Sorted(ps) && mid < |ps| && Less(ps[mid].key, key)
    ensures BelowUpTo(ps, mid + 1, key)
  {
    hide Less;
    forall k | 0 <= k < mid + 1
      ensures Less(ps[k].key, key)
    {
      if k < mid {
        LessTransitive(ps[k].key, ps[mid].key, key);
      }
    }
  }

  lemma {:induction false} AboveMiddle(ps: seq<Pair>, mid: nat, key: bytes)
    requires Sorted(ps) && mid < |ps| && Less(key, ps[mid].key)
    ensures AboveFrom(ps, mid, key)
  {
    hide Less;
    forall k | mid <= k < |ps|
      ensures Less(key, ps[k].key)
    {
      if k > mid {
        LessTransitive(key, ps[mid].key, ps[k].key);
      }
    }
  }

  /** A key that all neighbours avoid is not in the map. */
  lemma {:induction false} NotFound(ps: seq<Pair>, i: nat, key: bytes)
    requires BelowUpTo(ps, i, key) && AboveFrom(ps, i, key)
    ensures key !in ToMap(ps)
  {
    hide Less, ToMap;
    if key in ToMap(ps) {
      var k := ToMapKey(ps, key);
      if k < i {
        LessIrreflexive(ps[k].key, key);
      } else {
        LessIrreflexive(key, ps[k].key);
      }
      assert false;
    }
  }

  /** hstoreFindKey. Whatever lower bound is carried in, as long as everything before it is
      below the key, the answer is the one of an unrestricted search; the bound carried out
      leaves everything up to the key behind. */
  method FindKey(h: HStore, low0: nat, key: bytes) returns (idx: int, low: nat)
    requires Canonical(h) && BelowUpTo(Decode(h), low0, key)
    ensures -1 <= idx < |Decode(h)| && low0 <= low <= |Decode(h)|
    ensures idx < 0 <==> key !in MapOf(h)
    ensures idx >= 0 ==> Decode(h)[idx].key == key && MapOf(h)[key] == Decode(h)[idx].val && low == idx + 1
    ensures idx < 0 ==> BelowUpTo(Decode(h), low, key) && AboveFrom(Decode(h), low, key)
    ensures forall k | 0 <= k < low :: k == idx || Less(Decode(h)[k].key, key)
  {
    ghost var ps := Decode(h);
    hide Less, Pack, ToMap, Decode, Sorted, Fits;
    low := low0;
    var high := Count(h);
    assert AboveFrom(ps, high, key);
    while low < high
      invariant low0 <= low <= high <= |ps|
      invariant BelowUpTo(ps, low, key) && AboveFrom(ps, high, key)
    {
      var mid := low + (high - low) / 2;
      ReadCanonical(h, mid);
      var difference := KeyCmp(KeyAt(h, mid), key);
      KeyCmpEqual(ps[mid].key, key);
      if difference == 0 {
        ToMapAt(ps, mid);
        BelowSelf(ps, mid);
        return mid, mid + 1;
      } else if difference < 0 {
        BelowMiddle(ps, mid, key) by { CmpIsLess(ps[mid].key, key); }
        low := mid + 1;
      } else {
        AboveMiddle(ps, mid, key) by { CmpIsLess(key, ps[mid].key); }
        high := mid;
      }
    }
    NotFound(ps, low, key);
    idx := -1;
  }

  lemma {:induction false} CmpIsLess(a: bytes, b: bytes)
    requires KeyCmp(a, b) < 0
    ensures Less(a, b)
  {
  }

  lemma {:induction false} BelowSelf(ps: seq<Pair>, mid: nat)
    requires Sorted(ps) && mid < |ps|
    ensures BelowUpTo(ps, mid, ps[mid].key)
  {
  }

  /** The bound left by one search is a bound for any larger key. */
  lemma {:induction false} BoundCarries(ps: seq<Pair>, low: nat, idx: int, key: bytes, next: bytes)
    requires low <= |ps| && Less(key, next) && (0 <= idx < |ps| ==> ps[idx].key == key)
    requires forall k | 0 <= k < low :: k == idx || Less(ps[k].key, key)
    ensures BelowUpTo(ps, low, next)
  {
    hide Less;
    forall k | 0 <= k < low
      ensures Less(ps[k].key, next)
    {
      if k != idx {
        LessTransitive(ps[k].key, key, next);
      }
    }
  }

  /** The bound is good for the next probe of an ordered list, if there is one. */
  ghost predicate BoundFor(ps: seq<Pair>, low: nat, keys: seq<Pair>, i: nat) {
    i < |keys| ==> BelowUpTo(ps, low, keys[i].key)
  }

  /** One probe of an ordered list. */
  method Probe(h: HStore, low0: nat, keys: seq<Pair>, i: nat) returns (idx: int, low: nat)
    requires Canonical(h) && Sorted(keys) && i < |keys| && BoundFor(Decode(h), low0, keys, i)
    ensures -1 <= idx < |Decode(h)| && BoundFor(Decode(h), low, keys, i + 1)
    ensures idx < 0 <==> keys[i].key !in MapOf(h)
    ensures idx >= 0 ==> Decode(h)[idx].key == keys[i].key && MapOf(h)[keys[i].key] == Decode(h)[idx].val
  {
    hide Less, Canonical, Decode, MapOf;
    CanonicalCount(h);
    idx, low := FindKey(h, low0, keys[i].key);
    if i + 1 < |keys| {
      assert Less(keys[i].key, keys[i + 1].key);
      BoundCarries(Decode(h), low, idx, keys[i].key, keys[i + 1].key);
    }
  }

  /** hstore_exists_any. */
  method ExistsAny(h: HStore, keys: seq<Pair>) returns (res: bool)
    requires Canonical(h) && Sorted(keys)
    ensures res <==> exists i :: 0 <= i < |keys| && keys[i].key in MapOf(h)
  {
    hide Canonical, Decode, MapOf, Sorted, Less;
    CanonicalCount(h);
    assert BoundFor(Decode(h), 0, keys, 0);
    var low := 0;
    var i := 0;
    while i < |keys|
      invariant 0 <= i <= |keys| && BoundFor(Decode(h), low, keys, i)
      invariant forall k | 0 <= k < i :: keys[k].key !in MapOf(h)
    {
      var idx;
      idx, low := Probe(h, low, keys, i);
      if idx >= 0 {
        return true;
      }
      i := i + 1;
    }
    res := false;
  }

  /** hstore_exists_all. */
  method ExistsAll(h: HStore, keys: seq<Pair>) returns (res: bool)
    requires Canonical(h) && Sorted(keys)
    ensures res <==> forall i | 0 <= i < |keys| :: keys[i].key in MapOf(h)
  {
    hide Canonical, Decode, MapOf, Sorted, Less;
    CanonicalCount(h);
    assert BoundFor(Decode(h), 0, keys, 0);
    var low := 0;
    var i := 0;
    while i < |keys|
      invariant 0 <= i <= |keys| && BoundFor(Decode(h), low, keys, i)
      invariant forall k | 0 <= k < i :: keys[k].key in MapOf(h)
    {
      var idx;
      idx, low := Probe(h, low, keys, i);
      if idx < 0 {
        return false;
      }
      i := i + 1;
    }
    res := true;
  }

  /** hstore_fetchval: nothing both for a missing key and for a null. */
  method FetchVal(h: HStore, key: bytes) returns (val: Option<bytes>)
    requires Canonical(h)
    ensures val == if key in MapOf(h) then MapOf(h)[key] else None
  {
    hide Canonical, Decode, MapOf, Less;
    var idx, _ := FindKey(h, 0, key);
    if idx < 0 {
      return None;
    }
    CanonicalCount(h);
    ReadCanonical(h, idx);
    if NullAt(h, idx) {
      return None;
    }
    val := Some(ValBytesAt(h, idx));
  }

  lemma {:induction false} CanonicalCount(h: HStore)
    requires Canonical(h)
    ensures |Decode(h)| == Count(h) && |h.entries| == 2 * Count(h) && Sorted(Decode(h)) && Fits(Decode(h))
    ensures MapOf(h) == ToMap(Decode(h))
  {
    hide Sorted, Fits, Pack, ToMap;
  }

  /** The value test shared by containment and by the removal of matching pairs. */
  method SameValue(g: HStore, i: nat, h: HStore, j: nat) returns (same: bool)
    requires Canonical(g) && Canonical(h) && i < Count(g) && j < Count(h)
    ensures |Decode(g)| == Count(g) && |Decode(h)| == Count(h)
    ensures same <==> Decode(g)[i].val == Decode(h)[j].val
  {
    hide Canonical, Decode, Slice, Off, EndPos, Item, ValBytes, PairAt, NullAt, ValBytesAt, KeyAt;
    CanonicalCount(g);
    CanonicalCount(h);
    ReadCanonical(g, i);
    ReadCanonical(h, j);
    ValuesEqual(Decode(g)[i].val, Decode(h)[j].val);
    var isNull := NullAt(g, i);
    same := !(isNull != NullAt(h, j) || (!isNull && ValBytesAt(g, i) != ValBytesAt(h, j)));
  }

  /** The k-th pair is in the map. */
  ghost predicate Agrees(m: map<bytes, Option<bytes>>, ts: seq<Pair>, k: nat)
    requires k < |ts|
  {
    ts[k].key in m && m[ts[k].key] == ts[k].val
  }

  /** hstore_contains: map inclusion. */
  method Contains(h: HStore, tmpl: HStore) returns (res: bool)
    requires Canonical(h) && Canonical(tmpl)
    ensures res <==> forall k | k in MapOf(tmpl) :: k in MapOf(h) && MapOf(h)[k] == MapOf(tmpl)[k]
  {
    hide Canonical, Decode, MapOf, Sorted, Fits, ToMap, Less, Count, BoundFor;
    CanonicalCount(h);
    CanonicalCount(tmpl);
    ghost var ts := Decode(tmpl);
    assert BoundFor(Decode(h), 0, ts, 0) by { FirstBound(Decode(h), ts); }
    res := true;
    var low := 0;
    var i := 0;
    while res && i < Count(tmpl)
      invariant 0 <= i <= |ts| && (res ==> BoundFor(Decode(h), low, ts, i))
      invariant res <==> forall k | 0 <= k < i :: Agrees(MapOf(h), ts, k)
    {
      var idx;
      idx, low := ProbePacked(h, low, tmpl, i);
      if idx >= 0 {
        res := SameValue(tmpl, i, h, idx);
      } else {
        res := false;
      }
      assert res == Agrees(MapOf(h), ts, i);
      i := i + 1;
    }
    InclusionByIndex(MapOf(h), ts, i, res);
  }

  lemma {:induction false} FirstBound(ps: seq<Pair>, keys: seq<Pair>)
    ensures BoundFor(ps, 0, keys, 0)
  {
  }

  lemma {:induction false} ValuesEqual(v: Option<bytes>, w: Option<bytes>)
    ensures v == w <==> v.None? == w.None? && (v.Some? ==> ValBytes(v) == ValBytes(w))
  {
  }

  /** Inclusion decided pair by pair, stopped at the first failure or at the end. */
  lemma {:induction false} InclusionByIndex(m: map<bytes, Option<bytes>>, ts: seq<Pair>, i: nat, res: bool)
    requires Sorted(ts) && i <= |ts| && (res ==> i == |ts|)
    requires res <==> forall k | 0 <= k < i :: Agrees(m, ts, k)
    ensures res <==> forall k | k in ToMap(ts) :: k in m && m[k] == ToMap(ts)[k]
  {
    hide Sorted, ToMap;
    if res {
      forall k | k in ToMap(ts)
        ensures k in m && m[k] == ToMap(ts)[k]
      {
        var j := ToMapKey(ts, k);
        assert Agrees(m, ts, j);
        ToMapAt(ts, j);
      }
    } else {
      var j :| 0 <= j < i && !Agrees(m, ts, j);
      ToMapAt(ts, j);
    }
  }

  method ProbePacked(h: HStore, low0: nat, tmpl: HStore, i: nat) returns (idx: int, low: nat)
    requires Canonical(h) && Canonical(tmpl) && i < Count(tmpl) && BoundFor(Decode(h), low0, Decode(tmpl), i)
    ensures |Decode(tmpl)| == Count(tmpl) && |Decode(h)| == Count(h)
    ensures -1 <= idx < Count(h) && BoundFor(Decode(h), low, Decode(tmpl), i + 1)
    ensures idx < 0 <==> Decode(tmpl)[i].key !in MapOf(h)
    ensures idx >= 0 ==> MapOf(h)[Decode(tmpl)[i].key] == Decode(h)[idx].val
  {
    hide Canonical, Decode, MapOf, Less;
    CanonicalCount(h);
    CanonicalCount(tmpl);
    ReadCanonical(tmpl, i);
    ghost var ts := Decode(tmpl);
    idx, low := FindKey(h, low0, KeyAt(tmpl, i));
    if i + 1 < Count(tmpl) {
      assert Less(ts[i].key, ts[i + 1].key);
      BoundCarries(Decode(h), low, idx, ts[i].key, ts[i + 1].key);
    }
  }

  // ----- copying -----

  /** Copy the i-th pair of a value to the writer, as the operations call HS_COPYITEM. */
  method CopyPair(w: Writer, h: HStore, i: nat)
    requires w.Valid() && Canonical(h) && i < Count(h)
    modifies w
    ensures w.Valid() && |Decode(h)| == Count(h) && w.written == old(w.written) + [Decode(h)[i]]
  {
    hide Canonical, Decode, Slice, Off, EndPos, Item, PairAt, NullAt, ValBytesAt, KeyAt, w.Valid;
    CanonicalCount(h);
    ReadCanonical(h, i);
    w.CopyItem(Slice(h.str, Off(h, 2 * i), EndPos(h.entries[2 * i + 1])), |KeyAt(h, i)|, |ValBytesAt(h, i)|,
               NullAt(h, i), Decode(h)[i]);
  }

  /** A filtered list packs to a canonical value whose map is the restricted one. */
  lemma {:induction false} PackFiltered(h: HStore, keep: Pair -> bool)
    requires Canonical(h)
    ensures var r := Pack(Filter(Decode(h), keep));
            Canonical(r) && MapOf(r) == map k | k in MapOf(h) && keep(Pair(k, MapOf(h)[k])) :: MapOf(h)[k]
  {
    hide Canonical, Decode, Filter, MapOf, ToMap, Sorted, Pack;
    CanonicalCount(h);
    FilterSorted(Decode(h), keep);
    FilterMap(Decode(h), keep);
    PackIsCanonical(Filter(Decode(h), keep));
  }

  /** One more pair: the writer holds the filtered prefix. */
  lemma {:induction false} PrefixGrows(ps: seq<Pair>, i: nat, keep: Pair -> bool)
    requires i < |ps|
    ensures Filter(ps[..i + 1], keep) == Filter(ps[..i], keep) + (if keep(ps[i]) then [ps[i]] else [])
  {
    FilterSnoc(ps[..i], ps[i], keep);
    assert ps[..i + 1] == ps[..i] + [ps[i]];
  }

  /** hstore_delete: removes one key. */
  method Delete(h: HStore, key: bytes) returns (r: HStore)
    requires Canonical(h)
    ensures Canonical(r) && MapOf(r) == map k | k in MapOf(h) && k != key :: MapOf(h)[k]
  {
    hide Canonical, Decode, Filter, MapOf, Fits, Sorted, Pack, RawEntries, Str;
    CanonicalCount(h);
    ghost var ps := Decode(h);
    ghost var keep := (p: Pair) => p.key != key;
    assert Filter(ps[..0], keep) == [] by { FilterNone(keep); }
    var w := new Writer();
    var i, outcount := 0, 0;
    while i < Count(h)
      invariant 0 <= i <= |ps| && w.Valid() && outcount == |w.written|
      invariant w.written == Filter(ps[..i], keep) && fresh(w)
    {
      ReadCanonical(h, i);
      PrefixGrows(ps, i, keep);
      if KeyAt(h, i) != key {
        CopyPair(w, h, i);
        outcount := outcount + 1;
      }
      i := i + 1;
    }
    assert ps[..i] == ps;
    r := w.Finalize(outcount);
    PackFiltered(h, keep);
  }

  lemma {:induction false} FilterNone(keep: Pair -> bool)
    ensures Filter([], keep) == []
  {
  }
}
