/**
 The comparison of packed hstores (hstore_cmp in contrib/hstore/hstore_op.c): string buffers
 first, then counts, then entries. It is a total order on canonical values, and it is zero
 exactly for equal maps.
 */
module HstoreCmp {
  import opened ByteOrder
  import opened HstoreFormat
  import opened HstoreMap
  import opened HstoreOps
  import opened HstoreMerge

  function Sign(x: int): int {
    if x < 0 then -1 else if x > 0 then 1 else 0
  }

  /** What an entry contributes to the order: its end offset, then its null flag. */
  function Rank(e: uint32): int {
    2 * EndPos(e) + (if EntryIsNull(e) then 1 else 0)
  }

  ghost function Ranks(es: seq<uint32>): (rs: seq<int>)
    ensures |rs| == |es| && forall i | 0 <= i < |es| :: rs[i] == Rank(es[i])
  {
    seq(|es|, i requires 0 <= i < |es| => Rank(es[i]))
  }

  /** The order as a lexicographic product. */
  ghost function Order(g: HStore, h: HStore): int {
    if Count(g) == 0 || Count(h) == 0 then Sign(Count(g) - Count(h))
    else if Lex(g.str, h.str) != 0 then Lex(g.str, h.str)
    else if Count(g) != Count(h) then Sign(Count(g) - Count(h))
    else Lex(Ranks(g.entries), Ranks(h.entries))
  }

  /** Comparing a common length first and the lengths after that is lexicographic order. */
  lemma {:induction false} PrefixThenLength(s: seq<int>, t: seq<int>, n: nat, i: nat)
    requires i <= n <= |s| && n <= |t| && (n == |s| || n == |t|)
    ensures LexFrom(s, t, i) ==
            if LexFrom(s[..n], t[..n], i) != 0 then LexFrom(s[..n], t[..n], i) else Sign(|s| - |t|)
    decreases n - i
  {
    if i < n && s[i] == t[i] {
      PrefixThenLength(s, t, n, i + 1);
    }
  }

  /** Skipping equal elements does not change the comparison. */
  lemma {:induction false} SkipEqual(s: seq<int>, t: seq<int>, i: nat)
    requires i <= |s| && i <= |t| && forall k | 0 <= k < i :: s[k] == t[k]
    ensures Lex(s, t) == LexFrom(s, t, i)
  {
    if i > 0 {
      SkipEqual(s, t, i - 1);
    }
  }

  lemma {:induction false} StrLength(h: HStore)
    requires Canonical(h) && Count(h) > 0
    ensures |h.entries| == 2 * Count(h) && EndPos(h.entries[2 * Count(h) - 1]) == |h.str|
  {
    hide Sorted, Decode, EndPos, RawEntries, Marked, Str;
    CanonicalCount(h);
    var ps := Decode(h);
    PackedValEntry(ps, |ps| - 1);
    PackedHeader(ps);
    assert ps[..|ps|] == ps;
  }

  /** hstore_cmp. */
  method Compare(g: HStore, h: HStore) returns (res: int)
    requires Canonical(g) && Canonical(h)
    ensures res == Order(g, h)
  {
    hide Canonical, Lex, Rank;
    var n1, n2 := Count(g), Count(h);
    if n1 == 0 || n2 == 0 {
      return if n1 > 0 then 1 else if n2 > 0 then -1 else 0;
    }
    StrLength(g);
    StrLength(h);
    var len1, len2 := EndPos(g.entries[2 * n1 - 1]), EndPos(h.entries[2 * n2 - 1]);
    var len := if len1 < len2 then len1 else len2;
    res := Lex(g.str[..len], h.str[..len]);
    LexPrefix(g.str, h.str, len);
    if res == 0 {
      if len1 > len2 {
        return 1;
      } else if len1 < len2 {
        return -1;
      } else if n1 > n2 {
        return 1;
      } else if n2 > n1 {
        return -1;
      }
      res := CompareEntries(g.entries, h.entries);
    }
  }

  lemma {:induction false} LexPrefix(s: seq<int>, t: seq<int>, n: nat)
    requires n <= |s| && n <= |t| && (n == |s| || n == |t|)
    ensures Lex(s, t) == if Lex(s[..n], t[..n]) != 0 then Lex(s[..n], t[..n]) else Sign(|s| - |t|)
  {
    PrefixThenLength(s, t, n, 0);
  }

  method CompareEntries(es: seq<uint32>, fs: seq<uint32>) returns (res: int)
    requires |es| == |fs|
    ensures res == Lex(Ranks(es), Ranks(fs))
  {
    var i := 0;
    while i < |es|
      invariant 0 <= i <= |es|
      invariant forall k | 0 <= k < i :: Ranks(es)[k] == Ranks(fs)[k]
    {
      if EndPos(es[i]) != EndPos(fs[i]) || EntryIsNull(es[i]) != EntryIsNull(fs[i]) {
        break;
      }
      i := i + 1;
    }
    SkipEqual(Ranks(es), Ranks(fs), i);
    hide EndPos, EntryIsNull;
    res := 0;
    if i < |es| {
      if EndPos(es[i]) < EndPos(fs[i]) {
        res := -1;
      } else if EndPos(es[i]) > EndPos(fs[i]) {
        res := 1;
      } else if EntryIsNull(es[i]) {
        res := 1;
      } else if EntryIsNull(fs[i]) {
        res := -1;
      }
    }
  }

  // ----- the order is total -----

  lemma {:induction false} LexTotal(s: seq<int>, t: seq<int>, u: seq<int>)
    ensures Lex(s, t) == 0 <==> s == t
    ensures Lex(s, t) == -Lex(t, s)
    ensures Lex(s, t) <= 0 && Lex(t, u) <= 0 ==> Lex(s, u) <= 0
    ensures Lex(s, t) <= 0 && Lex(t, u) <= 0 && (Lex(s, t) < 0 || Lex(t, u) < 0) ==> Lex(s, u) < 0
  {
    LexFromEqual(s, t, 0);
    LexFromReverse(s, t, 0);
    if Lex(s, t) <= 0 && Lex(t, u) <= 0 {
      LexFromTransitive(s, t, u, 0);
    }
  }

  lemma {:induction false} OrderReverse(g: HStore, h: HStore)
    ensures Order(g, h) == -Order(h, g)
  {
    hide Lex, Ranks;
    LexTotal(g.str, h.str, h.str);
    LexTotal(Ranks(g.entries), Ranks(h.entries), Ranks(h.entries));
  }

  lemma {:induction false} OrderTransitive(g: HStore, h: HStore, k: HStore)
    requires Order(g, h) <= 0 && Order(h, k) <= 0
    ensures Order(g, k) <= 0
  {
    hide Lex, Ranks, Count;
    LexTotal(g.str, h.str, k.str);
    LexTotal(h.str, k.str, k.str);
    LexTotal(g.str, k.str, k.str);
    LexTotal(Ranks(g.entries), Ranks(h.entries), Ranks(k.entries));
  }

  /** The flags and offset make up the word. */
  lemma {:induction false} EntryWord(e: uint32, f: uint32)
    requires Rank(e) == Rank(f) && EntryIsFirst(e) == EntryIsFirst(f)
    ensures e == f
  {
  }

  lemma {:induction false} CanonicalEntry(h: HStore, e: nat)
    requires Canonical(h) && e < |h.entries|
    ensures EntryIsFirst(h.entries[e]) == (e == 0)
  {
    hide Sorted, Decode, EndPos, EntryIsNull, EntryIsFirst, RawEntries, Marked, Str;
    CanonicalCount(h);
    if e % 2 == 0 {
      PackedKeyEntry(Decode(h), e / 2);
    } else {
      PackedValEntry(Decode(h), e / 2);
    }
  }

  /** Canonical values with the same strings, counts and ranks are the same. */
  lemma {:induction false} SameParts(g: HStore, h: HStore)
    requires Canonical(g) && Canonical(h) && g.str == h.str && Count(g) == Count(h)
    requires Ranks(g.entries) == Ranks(h.entries)
    ensures g == h
  {
    hide Canonical, Rank, EntryIsFirst;
    CanonicalShape(g);
    CanonicalShape(h);
    forall e | 0 <= e < |g.entries|
      ensures g.entries[e] == h.entries[e]
    {
      CanonicalEntry(g, e);
      CanonicalEntry(h, e);
      assert Ranks(g.entries)[e] == Ranks(h.entries)[e];
      EntryWord(g.entries[e], h.entries[e]);
    }
    assert g.entries == h.entries;
  }

  lemma {:induction false} CanonicalShape(h: HStore)
    requires Canonical(h)
    ensures |h.entries| == 2 * Count(h) && h.size == Count(h) + NEW_VERSION && h.vsize == DataSize(Count(h), |h.str|)
    ensures Count(h) == 0 ==> h.str == []
  {
    hide Sorted, Decode, RawEntries, Marked;
    CanonicalCount(h);
  }

  /** Zero exactly for equal maps. */
  lemma {:induction false} OrderZero(g: HStore, h: HStore)
    requires Canonical(g) && Canonical(h)
    ensures Order(g, h) == 0 <==> MapOf(g) == MapOf(h)
  {
    hide Canonical, Lex, Ranks, MapOf;
    CanonicalUnique(g, h);
    CanonicalShape(g);
    CanonicalShape(h);
    LexTotal(g.str, h.str, h.str);
    LexTotal(Ranks(g.entries), Ranks(h.entries), Ranks(h.entries));
    if Order(g, h) == 0 {
      if Count(g) == 0 {
        EmptyRanks(g, h);
      }
      SameParts(g, h);
    }
  }

  lemma {:induction false} EmptyRanks(g: HStore, h: HStore)
    requires |g.entries| == 0 == |h.entries|
    ensures Ranks(g.entries) == Ranks(h.entries)
  {
    assert g.entries == h.entries;
  }

  // ----- which of two values comes first -----

  /** The two entry arrays agree before e, and there the first one has the smaller end offset, or
      the same and a value where the second one has a null. */
  ghost predicate EntryBelow(es: seq<uint32>, fs: seq<uint32>, e: nat) {
    && e < |es| && e < |fs|
    && (forall k | 0 <= k < e :: EndPos(es[k]) == EndPos(fs[k]) && EntryIsNull(es[k]) == EntryIsNull(fs[k]))
    && (|| EndPos(es[e]) < EndPos(fs[e])
        || (EndPos(es[e]) == EndPos(fs[e]) && !EntryIsNull(es[e]) && EntryIsNull(fs[e])))
  }

  /** The empty value comes first; then the string buffers decide as bytes do, then the number of
      pairs, then the first entry that differs. */
  ghost predicate Precedes(g: HStore, h: HStore) {
    if Count(g) == 0 || Count(h) == 0 then Count(g) < Count(h)
    else
      || (exists i: nat :: PartsBelow(g.str, h.str, i))
      || (g.str == h.str && Count(g) < Count(h))
      || (g.str == h.str && Count(g) == Count(h) && exists e: nat :: EntryBelow(g.entries, h.entries, e))
  }

  lemma {:induction false} RanksBelow(es: seq<uint32>, fs: seq<uint32>, e: nat)
    requires |es| == |fs|
    ensures PartsBelow(Ranks(es), Ranks(fs), e) <==> EntryBelow(es, fs, e)
  {
    hide EndPos, EntryIsNull;
    forall k | 0 <= k < |es|
      ensures Ranks(es)[k] == Ranks(fs)[k] <==>
                EndPos(es[k]) == EndPos(fs[k]) && EntryIsNull(es[k]) == EntryIsNull(fs[k])
    {
    }
  }

  /** The sign of the comparison says which value comes first. */
  lemma {:induction false} OrderMeans(g: HStore, h: HStore)
    requires Canonical(g) && Canonical(h)
    ensures Order(g, h) < 0 <==> Precedes(g, h)
    ensures Order(g, h) > 0 <==> Precedes(h, g)
  {
    OneWay(g, h);
    OneWay(h, g);
    OrderReverse(g, h);
  }

  lemma {:induction false} OneWay(g: HStore, h: HStore)
    requires Canonical(g) && Canonical(h)
    ensures Order(g, h) < 0 <==> Precedes(g, h)
  {
    hide Canonical, Lex, Ranks, Rank, PartsBelow, EntryBelow;
    LexFirstDifference(g.str, h.str);
    LexTotal(g.str, h.str, h.str);
    CanonicalShape(g);
    CanonicalShape(h);
    LexFirstDifference(Ranks(g.entries), Ranks(h.entries));
    if Count(g) == Count(h) {
      forall e: nat
        ensures PartsBelow(Ranks(g.entries), Ranks(h.entries), e) <==> EntryBelow(g.entries, h.entries, e)
      {
        RanksBelow(g.entries, h.entries, e);
      }
    }
  }
}
