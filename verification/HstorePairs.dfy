/**
 Lists of pairs on their way into an hstore (contrib/hstore/hstore_io.c, hstore_op.c):
 dropping duplicate keys in place after sorting, and the key lists of array arguments. The
 library sort is taken by its contract, as any ordered rearrangement.
 */
module HstorePairs {
  import opened Wrappers
  import opened ByteOrder
  import opened HstoreFormat
  import opened HstoreMap
  import opened HstoreMerge

  ghost predicate NonDecreasing(ps: seq<Pair>) {
    forall i, j | 0 <= i < j < |ps| :: !Less(ps[j].key, ps[i].key)
  }

  /** An order in which the sort may leave a list. */
  ghost predicate SortOf(order: seq<Pair>, ps: seq<Pair>) {
    multiset(order) == multiset(ps) && NonDecreasing(order)
  }

  /** The first pair of every run of equal keys. */
  ghost function Unique(ps: seq<Pair>): (us: seq<Pair>)
    ensures ps != [] ==> us != [] && us[|us| - 1].key == ps[|ps| - 1].key
    ensures |us| <= |ps|
  {
    if |ps| <= 1 then ps
    else
      var us, p := Unique(ps[..|ps| - 1]), ps[|ps| - 1];
      if p.key == us[|us| - 1].key then us else us + [p]
  }

  lemma {:induction false} UniqueSnoc(ps: seq<Pair>, i: nat)
    requires 0 < i < |ps|
    ensures Unique(ps[..i + 1]) ==
            (var us := Unique(ps[..i]); if ps[i].key == us[|us| - 1].key then us else us + [ps[i]])
  {
    assert ps[..i + 1][..i] == ps[..i];
  }

  lemma {:induction false} UniqueMembers(ps: seq<Pair>, p: Pair)
    ensures p in Unique(ps) ==> p in ps
    ensures p in ps ==> exists i :: KeyIs(Unique(ps), i, p.key)
  {
    if |ps| <= 1 {
      if p in ps {
        assert KeyIs(Unique(ps), 0, p.key);
      }
    } else {
      var front, last := ps[..|ps| - 1], ps[|ps| - 1];
      var us := Unique(front);
      UniqueMembers(front, p);
      assert ps == front + [last];
      if p in front {
        var i: nat :| KeyIs(us, i, p.key);
        assert KeyIs(Unique(ps), i, p.key);
      } else if p == last {
        assert KeyIs(Unique(ps), |Unique(ps)| - 1, p.key);
      }
    }
  }

  /** Uniquing an ordered list orders it strictly. */
  lemma {:induction false} UniqueSorted(ps: seq<Pair>)
    requires NonDecreasing(ps)
    ensures Sorted(Unique(ps))
  {
    if |ps| > 1 {
      var front, last := ps[..|ps| - 1], ps[|ps| - 1];
      hide Less;
      UniqueSorted(front);
      var us := Unique(front);
      if last.key != us[|us| - 1].key {
        var top := us[|us| - 1].key;
        assert top == ps[|ps| - 2].key;
        NotLess(last.key, top);
        forall i | 0 <= i < |us|
          ensures Less(us[i].key, last.key)
        {
          if i < |us| - 1 {
            LessTransitive(us[i].key, top, last.key);
          }
        }
        SortedSnoc(us, last);
      }
    }
  }

  lemma {:induction false} NotLess(a: bytes, b: bytes)
    requires !Less(a, b) && a != b
    ensures Less(b, a)
  {
    KeyCmpEqual(a, b);
  }

  lemma {:induction false} UniqueKeeps(ps: seq<Pair>)
    requires Sorted(ps)
    ensures Unique(ps) == ps
  {
    if |ps| > 1 {
      hide Less;
      var front, last := ps[..|ps| - 1], ps[|ps| - 1];
      UniqueKeeps(front);
      assert Less(ps[|ps| - 2].key, last.key);
      LessIrreflexive(ps[|ps| - 2].key, last.key);
    }
  }

  /** A strictly ordered list has only one order. */
  lemma {:induction false} SortOfSorted(order: seq<Pair>, ps: seq<Pair>)
    requires Sorted(ps) && SortOf(order, ps)
    ensures order == ps
    decreases |ps|
  {
    hide Sorted, SortOf;
    SortOfLength(order, ps);
    if ps != [] {
      var m := |ps| - 1;
      LastMatches(order, ps);
      FrontSortOf(order, ps);
      SortOfSorted(order[..m], ps[..m]);
      assert order == order[..m] + [order[m]] && ps == ps[..m] + [ps[m]];
    }
  }

  lemma {:induction false} SortOfLength(order: seq<Pair>, ps: seq<Pair>)
    requires SortOf(order, ps)
    ensures |order| == |ps|
  {
    assert |multiset(order)| == |order| && |multiset(ps)| == |ps|;
  }

  lemma {:induction false} FrontSortOf(order: seq<Pair>, ps: seq<Pair>)
    requires Sorted(ps) && SortOf(order, ps) && ps != [] && |order| == |ps| && order[|ps| - 1] == ps[|ps| - 1]
    ensures Sorted(ps[..|ps| - 1]) && SortOf(order[..|ps| - 1], ps[..|ps| - 1])
  {
    hide Less, NonDecreasing, Sorted;
    FrontMultiset(order);
    FrontMultiset(ps);
    FrontOrdered(order);
    FrontSorted(ps);
  }

  lemma {:induction false} FrontMultiset<T>(s: seq<T>)
    requires s != []
    ensures multiset(s[..|s| - 1]) == multiset(s) - multiset{s[|s| - 1]}
  {
    assert s == s[..|s| - 1] + [s[|s| - 1]];
  }

  lemma {:induction false} FrontOrdered(ps: seq<Pair>)
    requires NonDecreasing(ps) && ps != []
    ensures NonDecreasing(ps[..|ps| - 1])
  {
    hide Less;
  }

  lemma {:induction false} FrontSorted(ps: seq<Pair>)
    requires Sorted(ps) && ps != []
    ensures Sorted(ps[..|ps| - 1])
  {
    hide Less;
  }

  lemma {:induction false} LastMatches(order: seq<Pair>, ps: seq<Pair>)
    requires Sorted(ps) && SortOf(order, ps) && ps != [] && |order| == |ps|
    ensures order[|ps| - 1] == ps[|ps| - 1]
  {
    hide Less;
    var m := |ps| - 1;
    assert order[m] in multiset(order) && ps[m] in multiset(ps);
    assert order[m] in ps && ps[m] in order;
    var i :| 0 <= i < |ps| && ps[i] == order[m];
    var j :| 0 <= j < |order| && order[j] == ps[m];
    assert i < m ==> Less(ps[i].key, ps[m].key);
    assert j < m ==> !Less(order[m].key, order[j].key);
  }

  /** hstoreUniquePairs after the sort, in place: the unique pairs move to the front and the
      number of string bytes they need is returned. */
  method UniquePairs(a: array<Pair>, l: nat) returns (n: nat, buflen: nat)
    requires l <= a.Length
    modifies a
    ensures n <= l && a[..n] == Unique(old(a[..l])) && buflen == |Str(a[..n])|
  {
    hide Str, Unique, Item, Compacted;
    ghost var was := a[..l];
    if l < 2 {
      UniqueSmall(was);
      buflen := if l == 1 then |Item(a[0])| else 0;
      return l, buflen;
    }
    var ptr, res := 1, 0;
    buflen := 0;
    UniqueStarts(a[..], was);
    while ptr < l
      invariant 0 <= res < ptr <= l && Compacted(a[..], was, res, ptr, buflen)
    {
      ghost var before := a[..];
      if a[ptr].key != a[res].key {
        buflen := buflen + |Item(a[res])|;
        res := res + 1;
        if res != ptr {
          a[res] := a[ptr];
        }
        Keep(before, a[..], was, res - 1, ptr, buflen - |Item(before[res - 1])|);
      } else {
        Skip(before, was, res, ptr, buflen);
      }
      ptr := ptr + 1;
    }
    AllCompacted(a[..], was, res, buflen);
    buflen := buflen + |Item(a[res])|;
    n := res + 1;
    assert a[..][..n] == a[..n];
  }

  lemma {:induction false} UniqueSmall(was: seq<Pair>)
    requires |was| < 2
    ensures Unique(was) == was && |Str(was)| == if |was| == 1 then |Item(was[0])| else 0
  {
    StrSmall(was);
  }

  lemma {:induction false} Skip(a: seq<Pair>, was: seq<Pair>, res: nat, ptr: nat, buflen: nat)
    requires Compacted(a, was, res, ptr, buflen) && ptr < |was| && a[ptr].key == a[res].key
    ensures Compacted(a, was, res, ptr + 1, buflen)
  {
    hide Unique, Item, Str;
    UniqueSnoc(was, ptr);
  }

  lemma {:induction false} AllCompacted(a: seq<Pair>, was: seq<Pair>, res: nat, buflen: nat)
    requires Compacted(a, was, res, |was|, buflen)
    ensures a[..res + 1] == Unique(was) && buflen + |Item(a[res])| == |Str(a[..res + 1])|
  {
    hide Unique, Item, Str;
    SizeGrows(a, res);
    assert was[..|was|] == was;
  }

  /** The pairs before ptr have been uniqued into the front, up to res. */
  ghost predicate Compacted(a: seq<Pair>, was: seq<Pair>, res: int, ptr: int, buflen: nat) {
    && 0 <= res < ptr <= |was| <= |a|
    && a[..res + 1] == Unique(was[..ptr]) && buflen == |Str(a[..res])|
    && (forall k | ptr <= k < |was| :: a[k] == was[k])
  }

  lemma {:induction false} UniqueStarts(a: seq<Pair>, was: seq<Pair>)
    requires 2 <= |was| <= |a| && a[..|was|] == was
    ensures Compacted(a, was, 0, 1, 0)
  {
    StrSmall(a[..0]);
    assert a[..1] == was[..1];
  }

  lemma {:induction false} Keep(a: seq<Pair>, b: seq<Pair>, was: seq<Pair>, res: nat, ptr: nat, buflen: nat)
    requires Compacted(a, was, res, ptr, buflen) && ptr < |was| && a[ptr].key != a[res].key
    requires b == a[res + 1 := a[ptr]]
    ensures Compacted(b, was, res + 1, ptr + 1, buflen + |Item(a[res])|)
  {
    hide Unique, Item, Str;
    UniqueSnoc(was, ptr);
    SizeGrows(a, res);
    assert b[..res + 1] == a[..res + 1];
    assert b[..res + 2] == a[..res + 1] + [was[ptr]];
  }

  lemma {:induction false} StrSmall(ps: seq<Pair>)
    ensures ps == [] ==> Str(ps) == []
    ensures |ps| == 1 ==> Str(ps) == Item(ps[0])
  {
    if |ps| == 1 {
      assert ps[..0] == [];
    }
  }

  lemma {:induction false} SizeGrows(ps: seq<Pair>, i: nat)
    requires i < |ps|
    ensures |Str(ps[..i + 1])| == |Str(ps[..i])| + |Item(ps[i])|
  {
    hide Str, RawEntries;
    WrittenGrows(ps[..i], ps[i]);
    assert ps[..i + 1] == ps[..i] + [ps[i]];
  }

  // ----- key lists -----

  /** The keys an array argument names; nulls are skipped. */
  ghost function KeysOf(a: seq<Option<bytes>>): seq<Pair> {
    if a == [] then []
    else
      var k := a[|a| - 1];
      KeysOf(a[..|a| - 1]) + (if k.Some? then [Pair(k.value, None)] else [])
  }

  lemma {:induction false} KeysOfMembers(a: seq<Option<bytes>>, k: bytes)
    ensures Pair(k, None) in KeysOf(a) <==> Some(k) in a
    ensures forall p | p in KeysOf(a) :: p.val.None?
  {
    if a != [] {
      KeysOfMembers(a[..|a| - 1], k);
      assert a == a[..|a| - 1] + [a[|a| - 1]];
    }
  }

  /** hstoreArrayToPairs: strictly ordered keys, exactly those of the array. `order` is what
      the sort makes of the array's non-null elements. */
  method ArrayToPairs(a: seq<Option<bytes>>, order: seq<Pair>) returns (keys: seq<Pair>)
    requires SortOf(order, KeysOf(a))
    ensures Sorted(keys)
    ensures forall k :: k in ToMap(keys) <==> Some(k) in a
  {
    hide Less, Sorted, ToMap, Unique, KeysOf, NonDecreasing;
    var pairs := new Pair[|order|](i requires 0 <= i < |order| => order[i]);
    assert pairs[..|order|] == order;
    var n, _ := UniquePairs(pairs, |order|);
    keys := pairs[..n];
    UniqueSorted(order);
    forall k: bytes
      ensures k in ToMap(keys) <==> Some(k) in a
    {
      KeyInArray(a, order, k);
    }
  }

  lemma {:induction false} KeyInArray(a: seq<Option<bytes>>, order: seq<Pair>, k: bytes)
    requires SortOf(order, KeysOf(a)) && Sorted(Unique(order))
    ensures k in ToMap(Unique(order)) <==> Some(k) in a
  {
    hide Less, Sorted, ToMap, Unique, KeysOf, NonDecreasing;
    KeysOfMembers(a, k);
    assert forall p :: p in order <==> p in multiset(order);
    assert forall p :: p in KeysOf(a) <==> p in multiset(KeysOf(a));
    if k in ToMap(Unique(order)) {
      var i := ToMapKey(Unique(order), k);
      UniqueMembers(order, Unique(order)[i]);
    }
    if Some(k) in a {
      UniqueMembers(order, Pair(k, None));
      var i: nat :| KeyIs(Unique(order), i, k);
      ToMapAt(Unique(order), i);
    }
  }
}
