/**
 The operations that merge two ordered lists on the packed form (contrib/hstore/hstore_op.c):
 removal of keys, removal of matching pairs, restriction and concatenation.
 */
module HstoreMerge {
  import opened Wrappers
  import opened ByteOrder
  import opened HstoreFormat
  import opened HstoreMap
  import opened HstoreOps

  /** HS_FIXSIZE and HS_SETCOUNT on a copied value. */
  function FixSize(h: HStore): HStore
    requires |h.entries| == 2 * Count(h)
  {
    var n := Count(h);
    var len := if n > 0 then EndPos(h.entries[2 * n - 1]) else 0;
    HStore(DataSize(n, len), n + NEW_VERSION, h.entries, h.str)
  }

  /** A canonical value already has the right size. */
  lemma {:induction false} FixSizeKeeps(h: HStore)
    requires Canonical(h)
    ensures FixSize(h) == h
  {
    hide Sorted, ToMap, Decode, EndPos, RawEntries, Marked, Str;
    CanonicalCount(h);
    var ps := Decode(h);
    if |ps| > 0 {
      PackedValEntry(ps, |ps| - 1);
      assert ps[..|ps|] == ps;
    } else {
      assert |Str(ps)| == 0 by { StrEmpty(); }
    }
  }

  lemma {:induction false} StrEmpty()
    ensures Str([]) == []
  {
  }

  // ----- the merge that removes -----

  /** A key below the other side's current one is on that side nowhere. */
  lemma {:induction false} Absent(ps: seq<Pair>, i: nat, keys: seq<Pair>, j: nat)
    requires Sorted(keys) && i < |ps| && BoundFor(keys, j, ps, i) && j <= |keys|
    requires j == |keys| || Less(ps[i].key, keys[j].key)
    ensures ps[i].key !in ToMap(keys)
  {
    hide ToMap, Less;
    if j < |keys| {
      AboveMiddle(keys, j, ps[i].key);
    }
    NotFound(keys, j, ps[i].key);
  }

  /** Stepping over a pair keeps the other side's position, past an equal key. */
  lemma {:induction false} StepOver(ps: seq<Pair>, i: nat, keys: seq<Pair>, j: nat)
    requires Sorted(ps) && i < |ps| && BoundFor(keys, j, ps, i) && j <= |keys|
    ensures BoundFor(keys, j, ps, i + 1)
    ensures j < |keys| && keys[j].key == ps[i].key ==> BoundFor(keys, j + 1, ps, i + 1)
  {
    hide Less;
    if i + 1 < |ps| {
      assert Less(ps[i].key, ps[i + 1].key);
      BoundCarries(keys, j, -1, ps[i].key, ps[i + 1].key);
      if j < |keys| && keys[j].key == ps[i].key {
        BoundCarries(keys, j + 1, j, ps[i].key, ps[i + 1].key);
      }
    }
  }

  /** Skipping a smaller key on the other side. */
  lemma {:induction false} SkipSmaller(ps: seq<Pair>, i: nat, keys: seq<Pair>, j: nat)
    requires Sorted(keys) && i < |ps| && j < |keys| && Less(keys[j].key, ps[i].key)
    ensures BoundFor(keys, j + 1, ps, i)
  {
    BelowMiddle(keys, j, ps[i].key);
  }

  ghost function NotIn(m: map<bytes, Option<bytes>>): Pair -> bool {
    (p: Pair) => p.key !in m
  }

  /** hstore_delete_array: removes all the given keys. */
  method DeleteArray(h: HStore, keys: seq<Pair>) returns (r: HStore)
    requires Canonical(h) && Sorted(keys)
    ensures Canonical(r) && MapOf(r) == map k | k in MapOf(h) && k !in ToMap(keys) :: MapOf(h)[k]
  {
    hide Canonical, Decode, Filter, MapOf, Fits, Sorted, Pack, RawEntries, Str, ToMap, Less, KeyCmp, BoundFor;
    CanonicalCount(h);
    if |keys| == 0 {
      NoKeys();
      FixSizeKeeps(h);
      return FixSize(h);
    }
    var w := new Writer();
    var outcount := CopyOthers(w, h, keys);
    r := w.Finalize(outcount);
    PackFiltered(h, NotIn(ToMap(keys)));
  }

  /** The merge loop: pairs whose keys are not among the given ones are copied. */
  method CopyOthers(w: Writer, h: HStore, keys: seq<Pair>) returns (outcount: nat)
    requires Canonical(h) && Sorted(keys) && w.Valid() && w.written == []
    modifies w
    ensures w.Valid() && w.written == Filter(Decode(h), NotIn(ToMap(keys))) && outcount == |w.written|
  {
    hide Canonical, Decode, Filter, Sorted, ToMap, Less, KeyCmp, BoundFor, w.Valid;
    CanonicalCount(h);
    ghost var ps := Decode(h);
    ghost var keep := NotIn(ToMap(keys));
    FilterNone(keep);
    FirstBound(keys, ps);
    var i, j := 0, 0;
    outcount := 0;
    assert ps[..0] == [];
    while i < Count(h)
      invariant 0 <= i <= |ps| && 0 <= j <= |keys| && BoundFor(keys, j, ps, i)
      invariant w.Valid() && w.written == Filter(ps[..i], keep) && outcount == |w.written|
      decreases |ps| - i + |keys| - j
    {
      ReadCanonical(h, i);
      var difference := if j >= |keys| then -1 else KeyCmp(KeyAt(h, i), keys[j].key);
      if difference > 0 {
        CmpSides(ps[i].key, keys[j].key);
        SkipSmaller(ps, i, keys, j);
        j := j + 1;
      } else if difference == 0 {
        DropStep(ps, i, keys, j);
        i, j := i + 1, j + 1;
      } else {
        KeepStep(ps, i, keys, j);
        CopyPair(w, h, i);
        outcount := outcount + 1;
        i := i + 1;
      }
    }
    assert ps[..i] == ps;
  }

  /** A pair whose key is on the other side is dropped. */
  lemma {:induction false} DropStep(ps: seq<Pair>, i: nat, keys: seq<Pair>, j: nat)
    requires Sorted(ps) && Sorted(keys) && i < |ps| && j < |keys| && BoundFor(keys, j, ps, i)
    requires KeyCmp(ps[i].key, keys[j].key) == 0
    ensures BoundFor(keys, j + 1, ps, i + 1)
    ensures Filter(ps[..i + 1], NotIn(ToMap(keys))) == Filter(ps[..i], NotIn(ToMap(keys)))
  {
    hide Sorted, BoundFor, Filter, ToMap, KeyCmp, Less;
    CmpSides(ps[i].key, keys[j].key);
    PrefixGrows(ps, i, NotIn(ToMap(keys)));
    ToMapAt(keys, j);
    StepOver(ps, i, keys, j);
  }

  /** A pair whose key is nowhere on the other side is kept. */
  lemma {:induction false} KeepStep(ps: seq<Pair>, i: nat, keys: seq<Pair>, j: nat)
    requires Sorted(ps) && Sorted(keys) && i < |ps| && j <= |keys| && BoundFor(keys, j, ps, i)
    requires j == |keys| || KeyCmp(ps[i].key, keys[j].key) < 0
    ensures BoundFor(keys, j, ps, i + 1)
    ensures Filter(ps[..i + 1], NotIn(ToMap(keys))) == Filter(ps[..i], NotIn(ToMap(keys))) + [ps[i]]
  {
    hide Sorted, BoundFor, Filter, ToMap, KeyCmp, Less;
    if j < |keys| {
      CmpSides(ps[i].key, keys[j].key);
    }
    Absent(ps, i, keys, j);
    PrefixGrows(ps, i, NotIn(ToMap(keys)));
    StepOver(ps, i, keys, j);
  }

  lemma {:induction false} CmpSides(a: bytes, b: bytes)
    ensures KeyCmp(a, b) > 0 <==> Less(b, a)
    ensures KeyCmp(a, b) < 0 <==> Less(a, b)
    ensures KeyCmp(a, b) == 0 <==> a == b
  {
    KeyCmpEqual(a, b);
  }

  lemma {:induction false} NoKeys()
    ensures ToMap([]) == map[]
  {
  }

  ghost function NotPairOf(m: map<bytes, Option<bytes>>): Pair -> bool {
    (p: Pair) => !(p.key in m && m[p.key] == p.val)
  }

  /** hstore_delete_hstore: removes the pairs that the other value has too. */
  method DeleteHstore(h: HStore, h2: HStore) returns (r: HStore)
    requires Canonical(h) && Canonical(h2)
    ensures Canonical(r)
    ensures MapOf(r) ==
            map k | k in MapOf(h) && !(k in MapOf(h2) && MapOf(h2)[k] == MapOf(h)[k]) :: MapOf(h)[k]
  {
    hide Canonical, Decode, Filter, MapOf, Fits, Sorted, Pack, RawEntries, Str, ToMap, Less, KeyCmp, BoundFor, Count;
    CanonicalCount(h);
    CanonicalCount(h2);
    ghost var ps, qs := Decode(h), Decode(h2);
    if Count(h2) == 0 {
      NoKeys();
      FixSizeKeeps(h);
      return FixSize(h);
    }
    ghost var keep := NotPairOf(MapOf(h2));
    FilterNone(keep);
    FirstBound(qs, ps);
    var w := new Writer();
    var i, j, outcount := 0, 0, 0;
    assert ps[..0] == [];
    while i < Count(h)
      invariant 0 <= i <= |ps| && 0 <= j <= |qs| && BoundFor(qs, j, ps, i)
      invariant fresh(w) && w.Valid() && w.written == Filter(ps[..i], keep) && outcount == |w.written|
      decreases |ps| - i + |qs| - j
    {
      var difference := Difference(h, i, h2, j);
      if difference > 0 {
        SkipSmaller(ps, i, qs, j);
        j := j + 1;
      } else if difference == 0 {
        PrefixGrows(ps, i, keep);
        ToMapAt(qs, j);
        StepOver(ps, i, qs, j);
        var same := SameValue(h, i, h2, j);
        if !same {
          CopyPair(w, h, i);
          outcount := outcount + 1;
        }
        i, j := i + 1, j + 1;
      } else {
        Absent(ps, i, qs, j);
        PrefixGrows(ps, i, keep);
        StepOver(ps, i, qs, j);
        CopyPair(w, h, i);
        outcount := outcount + 1;
        i := i + 1;
      }
    }
    assert ps[..i] == ps;
    r := w.Finalize(outcount);
    PackFiltered(h, keep);
  }

  /** The key comparison of a merge; an exhausted right side counts as larger. */
  method Difference(h: HStore, i: nat, h2: HStore, j: nat) returns (d: int)
    requires Canonical(h) && Canonical(h2) && i < Count(h) && j <= Count(h2)
    ensures |Decode(h)| == Count(h) && |Decode(h2)| == Count(h2)
    ensures j == Count(h2) ==> d < 0
    ensures j < Count(h2) ==> (d < 0 <==> Less(Decode(h)[i].key, Decode(h2)[j].key))
    ensures j < Count(h2) ==> (d > 0 <==> Less(Decode(h2)[j].key, Decode(h)[i].key))
    ensures j < Count(h2) ==> (d == 0 <==> Decode(h2)[j].key == Decode(h)[i].key)
  {
    hide Canonical, Decode, Fits, Sorted, KeyCmp, Less, Count;
    CanonicalCount(h);
    CanonicalCount(h2);
    if j >= Count(h2) {
      return -1;
    }
    ReadCanonical(h, i);
    ReadCanonical(h2, j);
    d := KeyCmp(KeyAt(h, i), KeyAt(h2, j));
    CmpSides(Decode(h)[i].key, Decode(h2)[j].key);
  }

  // ----- the merge that concatenates -----

  /** The pairs written so far are the override of the two consumed prefixes, and every
      pair still to come is larger. */
  ghost predicate Merging(os: seq<Pair>, ps: seq<Pair>, i: nat, qs: seq<Pair>, j: nat) {
    && i <= |ps| && j <= |qs| && Sorted(os)
    && BoundFor(os, |os|, ps, i) && BoundFor(os, |os|, qs, j) && BoundFor(qs, j, ps, i)
    && ToMap(os) == ToMap(ps[..i]) + ToMap(qs[..j])
    && TotalSize(os) <= TotalSize(ps[..i]) + TotalSize(qs[..j])
  }

  lemma {:induction false} ToMapSnoc(ps: seq<Pair>, p: Pair)
    ensures ToMap(ps + [p]) == ToMap(ps)[p.key := p.val]
  {
    assert (ps + [p])[..|ps|] == ps;
  }

  /** Taking one more pair of a list. */
  lemma {:induction false} Consume(ps: seq<Pair>, i: nat)
    requires i < |ps|
    ensures ToMap(ps[..i + 1]) == ToMap(ps[..i])[ps[i].key := ps[i].val]
    ensures TotalSize(ps[..i + 1]) == TotalSize(ps[..i]) + 8 + |Item(ps[i])|
  {
    hide TotalSize, Item, ToMap;
    assert ps[..i + 1] == ps[..i] + [ps[i]];
    ToMapSnoc(ps[..i], ps[i]);
    TotalSizeSnoc(ps[..i], ps[i]);
  }

  lemma {:induction false} SortedSnoc(os: seq<Pair>, p: Pair)
    requires Sorted(os) && BelowUpTo(os, |os|, p.key)
    ensures Sorted(os + [p])
  {
    hide Less;
  }

  /** A larger pair is a bound for the extended list. */
  lemma {:induction false} BoundSnoc(os: seq<Pair>, p: Pair, ps: seq<Pair>, i: nat)
    requires i < |ps| ==> BelowUpTo(os, |os|, ps[i].key) && Less(p.key, ps[i].key)
    ensures BoundFor(os + [p], |os + [p]|, ps, i)
  {
    hide Less;
  }

  /** A bound moves on with an ordered list. */
  lemma {:induction false} BoundNext(os: seq<Pair>, ps: seq<Pair>, i: nat)
    requires Sorted(ps) && i < |ps| && BoundFor(os, |os|, ps, i)
    ensures BoundFor(os, |os|, ps, i + 1)
    ensures BoundFor(os + [ps[i]], |os| + 1, ps, i + 1)
  {
    hide Less;
    if i + 1 < |ps| {
      assert Less(ps[i].key, ps[i + 1].key);
      BoundCarries(os, |os|, -1, ps[i].key, ps[i + 1].key);
    }
  }

  lemma {:induction false} NotConsumed(qs: seq<Pair>, j: nat, key: bytes)
    requires BelowUpTo(qs, j, key) && j >= 0
    ensures key !in ToMap(qs[..j])
  {
    hide Less, ToMap;
    if key in ToMap(qs[..j]) {
      var k := ToMapKey(qs[..j], key);
      LessIrreflexive(qs[k].key, key);
      assert false;
    }
  }

  lemma {:induction false} OverrideLeft<K, V>(a: map<K, V>, b: map<K, V>, k: K, u: V, v: V)
    ensures a + b[k := v] == (a + b)[k := v]
    ensures k !in b ==> a[k := v] + b == (a + b)[k := v]
    ensures a[k := u] + b[k := v] == (a + b)[k := v]
  {
  }

  lemma {:induction false} TakeLeft(os: seq<Pair>, ps: seq<Pair>, i: nat, qs: seq<Pair>, j: nat)
    requires Merging(os, ps, i, qs, j) && Sorted(ps) && Sorted(qs) && i < |ps|
    requires j == |qs| || Less(ps[i].key, qs[j].key)
    ensures Merging(os + [ps[i]], ps, i + 1, qs, j)
  {
    hide Less, ToMap, TotalSize, Sorted, Item;
    Consume(ps, i);
    SortedSnoc(os, ps[i]);
    ToMapSnoc(os, ps[i]);
    TotalSizeSnoc(os, ps[i]);
    BoundNext(os, ps, i);
    BoundSnoc(os, ps[i], qs, j);
    NotConsumed(qs, j, ps[i].key);
    OverrideLeft(ToMap(ps[..i]), ToMap(qs[..j]), ps[i].key, ps[i].val, ps[i].val);
    StepOver(ps, i, qs, j);
  }

  lemma {:induction false} TakeRight(os: seq<Pair>, ps: seq<Pair>, i: nat, qs: seq<Pair>, j: nat)
    requires Merging(os, ps, i, qs, j) && Sorted(ps) && Sorted(qs) && j < |qs|
    requires i == |ps| || Less(qs[j].key, ps[i].key)
    ensures Merging(os + [qs[j]], ps, i, qs, j + 1)
  {
    hide Less, ToMap, TotalSize, Sorted, Item;
    Consume(qs, j);
    SortedSnoc(os, qs[j]);
    ToMapSnoc(os, qs[j]);
    TotalSizeSnoc(os, qs[j]);
    BoundNext(os, qs, j);
    BoundSnoc(os, qs[j], ps, i);
    OverrideLeft(ToMap(ps[..i]), ToMap(qs[..j]), qs[j].key, qs[j].val, qs[j].val);
    if i < |ps| {
      SkipSmaller(ps, i, qs, j);
    }
  }

  lemma {:induction false} TakeBoth(os: seq<Pair>, ps: seq<Pair>, i: nat, qs: seq<Pair>, j: nat)
    requires Merging(os, ps, i, qs, j) && Sorted(ps) && Sorted(qs) && i < |ps| && j < |qs|
    requires qs[j].key == ps[i].key
    ensures Merging(os + [qs[j]], ps, i + 1, qs, j + 1)
  {
    hide Less, ToMap, TotalSize, Sorted, Item;
    Consume(ps, i);
    Consume(qs, j);
    SortedSnoc(os, qs[j]);
    ToMapSnoc(os, qs[j]);
    TotalSizeSnoc(os, qs[j]);
    BoundNext(os, qs, j);
    BoundNext(os, ps, i);
    if i + 1 < |ps| {
      BoundSnoc(os, qs[j], ps, i + 1) by { NextLess(ps, i); }
    }
    OverrideLeft(ToMap(ps[..i]), ToMap(qs[..j]), qs[j].key, ps[i].val, qs[j].val);
    StepOver(ps, i, qs, j);
  }

  lemma {:induction false} NextLess(ps: seq<Pair>, i: nat)
    requires Sorted(ps) && i + 1 < |ps|
    ensures Less(ps[i].key, ps[i + 1].key)
  {
  }

  lemma {:induction false} MergingStarts(ps: seq<Pair>, qs: seq<Pair>)
    ensures Merging([], ps, 0, qs, 0)
  {
    TotalSizeEmpty();
  }

  /** Both sides consumed: the result packs to the override of the maps. */
  lemma {:induction false} Merged(os: seq<Pair>, h: HStore, h2: HStore)
    requires Canonical(h) && Canonical(h2) && h.vsize + h2.vsize <= MAX_SIZE
    requires Merging(os, Decode(h), |Decode(h)|, Decode(h2), |Decode(h2)|)
    ensures Canonical(Pack(os)) && MapOf(Pack(os)) == MapOf(h) + MapOf(h2)
  {
    hide Sorted, ToMap, Decode, Canonical;
    CanonicalSize(h);
    CanonicalSize(h2);
    CanonicalCount(h);
    CanonicalCount(h2);
    var ps, qs := Decode(h), Decode(h2);
    assert ps[..|ps|] == ps && qs[..|qs|] == qs;
    PackIsCanonical(os);
  }

  lemma {:induction false} CanonicalSize(h: HStore)
    requires Canonical(h)
    ensures h.vsize == TotalSize(Decode(h)) + 8
  {
    hide Sorted, Decode, RawEntries, Str;
    CanonicalCount(h);
  }

  /** hstore_concat: the second operand overrides the first. Fails only when the two values
      together exceed the allocation limit. */
  method Concat(h: HStore, h2: HStore) returns (r: Option<HStore>)
    requires Canonical(h) && Canonical(h2)
    ensures r.None? <==> h.vsize + h2.vsize > MAX_SIZE
    ensures r.Some? ==> Canonical(r.value) && MapOf(r.value) == MapOf(h) + MapOf(h2)
  {
    hide Canonical, Decode, MapOf, Sorted, Pack, ToMap, Less, Count, Merging;
    CanonicalCount(h);
    CanonicalCount(h2);
    if h.vsize + h2.vsize > MAX_SIZE {
      return None;
    }
    NoKeys();
    if Count(h) == 0 {
      FixSizeKeeps(h2);
      return Some(FixSize(h2));
    }
    if Count(h2) == 0 {
      FixSizeKeeps(h);
      return Some(FixSize(h));
    }
    ghost var ps, qs := Decode(h), Decode(h2);
    MergingStarts(ps, qs);
    var w := new Writer();
    var i, j, outcount := 0, 0, 0;
    while i < Count(h) || j < Count(h2)
      invariant 0 <= i <= |ps| && 0 <= j <= |qs| && fresh(w) && w.Valid() && outcount == |w.written|
      invariant Merging(w.written, ps, i, qs, j)
      decreases |ps| - i + |qs| - j
    {
      var difference := 1;
      if i < Count(h) {
        difference := Difference(h, i, h2, j);
      }
      if difference >= 0 {
        if difference == 0 {
          TakeBoth(w.written, ps, i, qs, j);
        } else {
          TakeRight(w.written, ps, i, qs, j);
        }
        CopyPair(w, h2, j);
        j := j + 1;
        if difference == 0 {
          i := i + 1;
        }
      } else {
        TakeLeft(w.written, ps, i, qs, j);
        CopyPair(w, h, i);
        i := i + 1;
      }
      outcount := outcount + 1;
    }
    Merged(w.written, h, h2);
    var packed := w.Finalize(outcount);
    r := Some(packed);
  }

  // ----- restriction -----

  /** The given keys that the map has, with their values. */
  ghost function Picked(keys: seq<Pair>, m: map<bytes, Option<bytes>>): seq<Pair> {
    if keys == [] then []
    else
      var k := keys[|keys| - 1].key;
      Picked(keys[..|keys| - 1], m) + (if k in m then [Pair(k, m[k])] else [])
  }

  lemma {:induction false} PickedSnoc(keys: seq<Pair>, i: nat, m: map<bytes, Option<bytes>>)
    requires i < |keys|
    ensures Picked(keys[..i + 1], m) ==
            Picked(keys[..i], m) + (if keys[i].key in m then [Pair(keys[i].key, m[keys[i].key])] else [])
  {
    assert keys[..i + 1][..i] == keys[..i];
  }

  ghost function Restrict(m: map<bytes, Option<bytes>>, d: map<bytes, Option<bytes>>): map<bytes, Option<bytes>> {
    map k | k in m && k in d :: m[k]
  }

  lemma {:induction false} RestrictGrows(m: map<bytes, Option<bytes>>, d: map<bytes, Option<bytes>>, k: bytes,
                                         v: Option<bytes>)
    ensures Restrict(m, d[k := v]) == if k in m then Restrict(m, d)[k := m[k]] else Restrict(m, d)
  {
  }

  lemma {:induction false} PickedMap(keys: seq<Pair>, m: map<bytes, Option<bytes>>)
    ensures ToMap(Picked(keys, m)) == Restrict(m, ToMap(keys))
  {
    if keys != [] {
      hide ToMap, Restrict;
      var front, p := keys[..|keys| - 1], keys[|keys| - 1];
      PickedMap(front, m);
      var f := Picked(front, m);
      assert keys == front + [p];
      ToMapSnoc(front, p);
      RestrictGrows(m, ToMap(front), p.key, p.val);
      if p.key in m {
        ToMapSnoc(f, Pair(p.key, m[p.key]));
      } else {
        assert Picked(keys, m) == f;
      }
    }
  }

  lemma {:induction false} PickedSorted(keys: seq<Pair>, m: map<bytes, Option<bytes>>)
    requires Sorted(keys)
    ensures Sorted(Picked(keys, m))
  {
    if keys != [] {
      var front, p := keys[..|keys| - 1], keys[|keys| - 1];
      var f := Picked(front, m);
      hide Less, ToMap;
      PickedSorted(front, m);
      if p.key in m {
        forall i | 0 <= i < |f|
          ensures Less(f[i].key, p.key)
        {
          PickedMap(front, m);
          ToMapAt(f, i);
          var a := ToMapKey(front, f[i].key);
          assert Less(keys[a].key, keys[|keys| - 1].key);
        }
        SortedSnoc(f, Pair(p.key, m[p.key]));
      } else {
        assert Picked(keys, m) == f;
      }
    }
  }

  ghost function KeyIn(m: map<bytes, Option<bytes>>): Pair -> bool {
    (p: Pair) => p.key in m
  }

  /** Picking keys from the map of an ordered list is filtering the list. */
  lemma {:induction false} PickedIsFilter(ps: seq<Pair>, keys: seq<Pair>)
    requires Sorted(ps) && Sorted(keys)
    ensures Picked(keys, ToMap(ps)) == Filter(ps, KeyIn(ToMap(keys)))
  {
    hide Sorted, ToMap, Filter, Picked;
    PickedSorted(keys, ToMap(ps));
    PickedMap(keys, ToMap(ps));
    FilterMap(ps, KeyIn(ToMap(keys)));
    SortedUnique(Picked(keys, ToMap(ps)), Filter(ps, KeyIn(ToMap(keys))));
  }

  /** hstorePairs: pack a list of pairs. */
  method PackPairs(ps: seq<Pair>) returns (h: HStore)
    ensures h == Pack(ps)
  {
    hide RawEntries, Str;
    if |ps| == 0 {
      StrEmpty();
      return HStore(DataSize(0, 0), 0 + NEW_VERSION, [], []);
    }
    var w := new Writer();
    var i := 0;
    while i < |ps|
      invariant 0 <= i <= |ps| && fresh(w) && w.Valid() && w.written == ps[..i]
    {
      w.AddItem(ps[i]);
      i := i + 1;
    }
    assert ps[..i] == ps;
    h := w.Finalize(|ps|);
  }

  /** hstore_slice_to_hstore: restriction to the given keys. */
  method SliceToHstore(h: HStore, keys: seq<Pair>) returns (r: HStore)
    requires Canonical(h) && Sorted(keys)
    ensures Canonical(r) && MapOf(r) == map k | k in MapOf(h) && k in ToMap(keys) :: MapOf(h)[k]
  {
    hide Canonical, Decode, MapOf, Sorted, Pack, ToMap, Count, Picked, BoundFor, Filter, PairAt;
    CanonicalCount(h);
    ghost var ps := Decode(h);
    FirstBound(ps, keys);
    PickedIsFilter(ps, keys);
    PackFiltered(h, KeyIn(ToMap(keys)));
    assert Picked(keys[..0], MapOf(h)) == [] by { PickedNone(MapOf(h)); }
    var out: seq<Pair> := [];
    var low, i := 0, 0;
    while i < |keys|
      invariant 0 <= i <= |keys| && 0 <= low && BoundFor(ps, low, keys, i)
      invariant out == Picked(keys[..i], MapOf(h))
    {
      PickedSnoc(keys, i, MapOf(h));
      var idx;
      idx, low := Probe(h, low, keys, i);
      if idx >= 0 {
        ReadCanonical(h, idx);
        out := out + [Pair(keys[i].key, PairAt(h, idx).val)];
      }
      i := i + 1;
    }
    assert keys[..i] == keys;
    r := PackPairs(out);
  }

  lemma {:induction false} PickedNone(m: map<bytes, Option<bytes>>)
    ensures Picked([], m) == []
  {
  }
}
