/**
 The two hstore formats that the upgrade tells apart (contrib/hstore/hstore_compat.c), each as a
 writer leaves it: the old format's words for a list of pairs, and the entries of the packed form.
 What the upgrade accepts as old is exactly what the old writer produces, and the upgrade turns
 it into the packed form of the same pairs.
 */
module HstoreOld {
  import opened Wrappers
  import opened ByteOrder
  import opened HstoreFormat
  import opened HstoreCompat

  /** The two words of the i-th pair: key length in the low half and value length in the high half
      of the first, null flag in the lowest bit and position above it in the second. The value
      length of a null is not used. */
  ghost predicate WordsOf(ws: seq<uint32>, ps: seq<Pair>, i: nat)
    requires 2 * i + 1 < |ws| && i < |ps|
  {
    && |ps[i].key| < 65536
    && ws[2 * i + 1] == 2 * |Str(ps[..i])| + (if ps[i].val.None? then 1 else 0)
    && exists len: nat :: WordWith(ws[2 * i], |ps[i].key|, len) && (ps[i].val.Some? ==> len == |ps[i].val.value|)
  }

  ghost predicate WordWith(w: uint32, keyLen: nat, valLen: nat) {
    valLen < 65536 && w == keyLen + 65536 * valLen
  }

  /** The words are those of the pairs. */
  ghost predicate WritesOld(ws: seq<uint32>, ps: seq<Pair>) {
    2 * |ps| <= |ws| && forall i | 0 <= i < |ps| :: WordsOf(ws, ps, i)
  }

  /** Keys from the shortest to the longest. */
  ghost predicate ByLength(ps: seq<Pair>) {
    forall i, j | 0 <= i < j < |ps| :: |ps[i].key| <= |ps[j].key|
  }

  lemma {:induction false} WordFields(w: uint32, keyLen: nat, valLen: nat)
    requires keyLen < 65536 && WordWith(w, keyLen, valLen)
    ensures w % 0x1_0000 == keyLen && w / 0x1_0000 == valLen
  {
  }

  /** The fields of the i-th pair. */
  lemma {:induction false} FieldsOf(ws: seq<uint32>, ps: seq<Pair>, i: nat)
    requires 2 * i + 1 < |ws| && i < |ps| && WordsOf(ws, ps, i)
    ensures OldKeyLen(ws, i) == |ps[i].key| && OldIsNull(ws, i) == ps[i].val.None?
    ensures OldPos(ws, i) == |Str(ps[..i])| && OldValBytes(ws, i) == |ValBytes(ps[i].val)|
    ensures ps[i].val.Some? ==> OldValLen(ws, i) == |ps[i].val.value|
  {
    hide Str;
    var len: nat :| WordWith(ws[2 * i], |ps[i].key|, len) && (ps[i].val.Some? ==> len == |ps[i].val.value|);
    WordFields(ws[2 * i], |ps[i].key|, len);
  }

  lemma {:induction false} StrGrows(ps: seq<Pair>, i: nat)
    requires i < |ps|
    ensures Str(ps[..i + 1]) == Str(ps[..i]) + Item(ps[i])
  {
    assert ps[..i + 1][..i] == ps[..i];
  }

  lemma {:induction false} StrPrefix(ps: seq<Pair>, i: nat)
    requires i <= |ps|
    ensures Str(ps[..i]) <= Str(ps)
    decreases |ps| - i
  {
    hide Str;
    if i == |ps| {
      assert ps[..i] == ps;
    } else {
      StrGrows(ps, i);
      StrPrefix(ps, i + 1);
    }
  }

  lemma {:induction false} EndsOf(ws: seq<uint32>, ps: seq<Pair>, i: nat)
    requires WritesOld(ws, ps) && i <= |ps|
    ensures OldEnd(ws, i) == |Str(ps[..i])|
  {
    hide WordsOf, Str, Item;
    if i == 0 {
      assert ps[..0] == [] && |Str([])| == 0 by { EmptyStr(); }
    } else {
      EndsOf(ws, ps, i - 1);
      FieldsOf(ws, ps, i - 1);
      StrGrows(ps, i - 1);
      assert |Item(ps[i - 1])| == |ps[i - 1].key| + |ValBytes(ps[i - 1].val)| by { ItemLength(ps[i - 1]); }
    }
  }

  lemma {:induction false} EmptyStr()
    ensures Str([]) == []
  {
  }

  lemma {:induction false} ItemLength(p: Pair)
    ensures |Item(p)| == |p.key| + |ValBytes(p.val)|
  {
  }

  /** The pair read from the words is the pair they were written for. */
  lemma {:induction false} ReadsBack(ws: seq<uint32>, ps: seq<Pair>, str: bytes, i: nat)
    requires WritesOld(ws, ps) && Str(ps) <= str && i < |ps|
    ensures OldPairAt(ws, str, i) == ps[i]
  {
    hide WordsOf, Str, OldKeyLen, OldPos, OldIsNull, OldValLen, Slice;
    FieldsOf(ws, ps, i);
    StrAt(ps, i);
    var p := ps[i];
    var a, c := |Str(ps[..i])|, |Str(ps[..i + 1])|;
    assert str[a..c] == Str(ps)[a..c];
    ItemLength(p);
    SliceParts(str, a, c, p.key, ValBytes(p.val));
  }

  /** A value that an old writer left for some pairs reads as those pairs, without gaps, and the
      test of the key lengths succeeds exactly when the keys are ordered by length. */
  lemma {:induction false} OldReadsBack(ws: seq<uint32>, ps: seq<Pair>, str: bytes)
    requires WritesOld(ws, ps) && Str(ps) <= str
    ensures OldPairs(ws, str, |ps|) == ps && Contiguous(ws, |ps|) && OldEnd(ws, |ps|) == |Str(ps)|
    ensures KeysNotShorter(ws, |ps|) <==> ByLength(ps)
  {
    hide WordsOf, Str, OldKeyLen, OldPos, OldEnd, OldPairAt, OldValBytes;
    forall i | 0 <= i < |ps|
      ensures OldPairAt(ws, str, i) == ps[i] && OldPos(ws, i) == OldEnd(ws, i) && OldKeyLen(ws, i) == |ps[i].key|
    {
      ReadsBack(ws, ps, str, i);
      FieldsOf(ws, ps, i);
      EndsOf(ws, ps, i);
    }
    assert ps[..|ps|] == ps;
    EndsOf(ws, ps, |ps|);
    if KeysNotShorter(ws, |ps|) {
      forall i, j | 0 <= i < j < |ps|
        ensures |ps[i].key| <= |ps[j].key|
      {
        LongerLater(ws, ps, i, j);
      }
    }
  }

  lemma {:induction false} LongerLater(ws: seq<uint32>, ps: seq<Pair>, i: nat, j: nat)
    requires WritesOld(ws, ps) && KeysNotShorter(ws, |ps|) && i <= j < |ps|
    ensures |ps[i].key| <= |ps[j].key|
    decreases j
  {
    hide WordsOf, OldKeyLen;
    FieldsOf(ws, ps, j);
    if i < j {
      LongerLater(ws, ps, i, j - 1);
      FieldsOf(ws, ps, j - 1);
    }
  }

  /** Words without gaps are those of the pairs they read as. */
  lemma {:induction false} OldIsWritten(ws: seq<uint32>, str: bytes, n: nat)
    requires 2 * n <= |ws| && Contiguous(ws, n) && OldEnd(ws, n) <= |str|
    ensures WritesOld(ws, OldPairs(ws, str, n)) && Str(OldPairs(ws, str, n)) <= str
  {
    hide Str, OldEnd, OldPairAt;
    var ps := OldPairs(ws, str, n);
    OldStr(ws, str, n, n);
    assert ps[..n] == ps;
    forall i | 0 <= i < n
      ensures WordsOf(ws, ps, i)
    {
      OldStr(ws, str, n, i);
      OldEndMonotone(ws, i, n);
      OldEndMonotone(ws, i + 1, n);
      WordsRead(ws, str, ps, i);
    }
  }

  lemma {:induction false} WordsRead(ws: seq<uint32>, str: bytes, ps: seq<Pair>, i: nat)
    requires 2 * i + 1 < |ws| && i < |ps| && ps[i] == OldPairAt(ws, str, i)
    requires OldPos(ws, i) == OldEnd(ws, i) && OldEnd(ws, i + 1) <= |str| && |Str(ps[..i])| == OldEnd(ws, i)
    ensures WordsOf(ws, ps, i)
  {
    OldItem(ws, str, i);
    hide Str, OldEnd;
    assert ws[2 * i] == OldKeyLen(ws, i) + 65536 * OldValLen(ws, i);
    assert WordWith(ws[2 * i], |ps[i].key|, OldValLen(ws, i));
  }

  /** Some pairs, with keys ordered by length, for which an old writer leaves these words and a
      string buffer that fits the value. */
  ghost predicate WrittenOld(ws: seq<uint32>, str: bytes, n: nat, vsize: nat) {
    exists ps :: |ps| == n && WritesOld(ws, ps) && Str(ps) <= str && ByLength(ps) && DataSize(n, |Str(ps)|) <= vsize
  }

  /** The test for the old format accepts exactly what an old writer leaves. */
  lemma {:induction false} OldOkIff(ws: seq<uint32>, str: bytes, n: nat, vsize: nat)
    requires DataSize(n, |str|) == vsize
    ensures OldOk(ws, n, vsize) <==> WrittenOld(ws, str, n, vsize)
  {
    hide Str, OldEnd, Contiguous, KeysNotShorter, WritesOld, ByLength, OldPairs;
    if OldOk(ws, n, vsize) {
      var ps := OldPairs(ws, str, n);
      OldPairsLength(ws, str, n);
      OldIsWritten(ws, str, n);
      OldReadsBack(ws, ps, str);
    }
    if WrittenOld(ws, str, n, vsize) {
      var ps :| |ps| == n && WritesOld(ws, ps) && Str(ps) <= str && ByLength(ps) && DataSize(n, |Str(ps)|) <= vsize;
      OldReadsBack(ws, ps, str);
      WritesLength(ws, ps);
    }
  }

  lemma {:induction false} WritesLength(ws: seq<uint32>, ps: seq<Pair>)
    requires WritesOld(ws, ps)
    ensures 2 * |ps| <= |ws|
  {
  }

  // ----- the new format -----

  /** The entries of the packed form in numbers: end offsets, 2^31 more on the first entry and 2^30
      more on the value of a null. */
  lemma {:induction false} PackedWords(ps: seq<Pair>, i: nat)
    requires Fits(ps) && i < |ps|
    ensures |Pack(ps).entries| == 2 * |ps|
    ensures Pack(ps).entries[2 * i] == |Str(ps[..i])| + |ps[i].key| + (if i == 0 then 2147483648 else 0)
    ensures Pack(ps).entries[2 * i + 1] == |Str(ps[..i + 1])| + (if ps[i].val.None? then 1073741824 else 0)
    ensures Pack(ps).size == |ps| + 2147483648 && Pack(ps).vsize == 8 + 8 * |ps| + |Str(ps)|
  {
    hide Str, Item, Entry;
    StrGrows(ps, i);
    StrPrefix(ps, i + 1);
    ItemLength(ps[i]);
    RawEntryAt(ps, i);
    EntryNumber(false, |Str(ps[..i])| + |ps[i].key|);
    EntryNumber(ps[i].val.None?, |Str(ps[..i + 1])|);
  }

  lemma {:induction false} EntryNumber(isNull: bool, pos: nat)
    requires pos < 1073741824
    ensures Entry(isNull, pos) == pos + (if isNull then 1073741824 else 0)
  {
  }

  /** A packed value whose version flag is not set yet passes the test for the new format when its
      keys are ordered by length, with its exact size. */
  lemma {:induction false} PackedIsNew(ps: seq<Pair>)
    requires Fits(ps) && ps != [] && ByLength(ps)
    ensures NewOk(Pack(ps).entries, |ps|, Pack(ps).vsize)
    ensures DataSize(|ps|, EndPos(Pack(ps).entries[2 * |ps| - 1])) == Pack(ps).vsize
  {
    hide Str, Pack, EndPos, EntryIsNull, EntryIsFirst, NewKeyLen;
    var es := Pack(ps).entries;
    PackedKeyEntry(ps, 0);
    forall i | 0 < i < 2 * |ps|
      ensures !EntryIsFirst(es[i]) && EndPos(es[i - 1]) <= EndPos(es[i])
    {
      EndsInOrder(ps, i / 2);
      assert i == 2 * (i / 2) || i == 2 * (i / 2) + 1;
    }
    forall i | 0 <= i < |ps|
      ensures NewKeyLen(es, i) == |ps[i].key| && !EntryIsNull(es[2 * i])
    {
      PackedKeyLen(ps, i);
    }
    PackedValEntry(ps, |ps| - 1);
    PackSize(ps);
    assert ps[..|ps|] == ps;
  }

  lemma {:induction false} EndsInOrder(ps: seq<Pair>, k: nat)
    requires Fits(ps) && k < |ps|
    ensures var es := Pack(ps).entries;
            && |es| == 2 * |ps| && EndPos(es[2 * k]) <= EndPos(es[2 * k + 1]) && !EntryIsFirst(es[2 * k + 1])
            && (k > 0 ==> !EntryIsFirst(es[2 * k]) && EndPos(es[2 * k - 1]) <= EndPos(es[2 * k]))
  {
    hide Str, Pack, EndPos, EntryIsNull, EntryIsFirst;
    PackedKeyEntry(ps, k);
    PackedValEntry(ps, k);
    StrAt(ps, k);
    ItemLength(ps[k]);
    if k > 0 {
      PackedValEntry(ps, k - 1);
    }
  }

  lemma {:induction false} PackedKeyLen(ps: seq<Pair>, i: nat)
    requires Fits(ps) && i < |ps|
    ensures |Pack(ps).entries| == 2 * |ps|
    ensures NewKeyLen(Pack(ps).entries, i) == |ps[i].key| && !EntryIsNull(Pack(ps).entries[2 * i])
  {
    hide Str, Pack, EndPos, EntryIsNull, EntryIsFirst;
    PackedKeyEntry(ps, i);
    if i > 0 {
      PackedValEntry(ps, i - 1);
    } else {
      assert ps[..0] == [];
      EmptyStr();
    }
  }

  /** What the test for the new format establishes about all entries: one first entry, end offsets
      that never fall and fit the value, key lengths that never fall, no null after the first key. */
  lemma {:induction false} NewOkMeans(es: seq<uint32>, n: nat, vsize: nat)
    requires 0 < n && 2 * n <= |es|
    ensures NewOk(es, n, vsize) <==>
              && (forall i | 0 <= i < 2 * n :: es[i] >= 2147483648 <==> i == 0)
              && (forall i, j | 0 <= i <= j < 2 * n :: EndPos(es[i]) <= EndPos(es[j]) <= vsize - 8 - 8 * n)
              && (forall i, j | 0 <= i < j < n :: NewKeyLen(es, i) <= NewKeyLen(es, j))
              && (forall i | 0 < i < n :: !EntryIsNull(es[2 * i]))
  {
    hide EndPos, EntryIsNull, NewKeyLen;
    if NewOk(es, n, vsize) {
      forall i, j | 0 <= i <= j < 2 * n
        ensures EndPos(es[i]) <= EndPos(es[j]) <= vsize - 8 - 8 * n
      {
        EndsRise(es, n, i, j);
        EndsRise(es, n, j, 2 * n - 1);
      }
      forall i, j | 0 <= i < j < n
        ensures NewKeyLen(es, i) <= NewKeyLen(es, j)
      {
        LengthsRise(es, n, i, j);
      }
    }
  }

  lemma {:induction false} EndsRise(es: seq<uint32>, n: nat, i: nat, j: nat)
    requires 2 * n <= |es| && NewPositions(es, n) && i <= j < 2 * n
    ensures EndPos(es[i]) <= EndPos(es[j])
    decreases j
  {
    hide EndPos;
    if i < j {
      EndsRise(es, n, i, j - 1);
    }
  }

  lemma {:induction false} LengthsRise(es: seq<uint32>, n: nat, i: nat, j: nat)
    requires 2 * n <= |es| && NewKeys(es, n) && i <= j < n
    ensures NewKeyLen(es, i) <= NewKeyLen(es, j)
    decreases j
  {
    hide NewKeyLen;
    if i < j {
      LengthsRise(es, n, i, j - 1);
    }
  }

  /** Forcing the flag and the length on the entries of a packed value, with any bytes after its
      string buffer, gives the packed value. */
  lemma {:induction false} ForcedIsPacked(ps: seq<Pair>, slop: bytes)
    requires Fits(ps) && |ps| < COUNT_LIMIT
    ensures |Pack(ps).entries| == 2 * |ps|
    ensures Shortcut(Pack(ps).entries, Str(ps) + slop, |ps|) == Pack(ps)
  {
    hide Str, EndPos, RawEntries;
    var n := |ps|;
    assert ps[..n] == ps;
    if n > 0 {
      PackedValEntry(ps, n - 1);
    } else {
      EmptyStr();
    }
    assert (Str(ps) + slop)[..|Str(ps)|] == Str(ps);
    assert Pack(ps).entries[..2 * n] == Pack(ps).entries;
  }
}
