/**
 Old hstore values (contrib/hstore/hstore_compat.c): the validity tests for the two formats
 and the in-place upgrade. An old entry is two words: key and value lengths in the first,
 the null flag in the lowest bit and the position above it in the second (the layout of
 little-endian machines).
 */
module HstoreCompat {
  import opened Wrappers
  import opened ByteOrder
  import opened HstoreFormat
  import opened HstoreMap
  import opened HstoreMerge
  import opened HstorePairs

  // ----- old entries -----

  function OldKeyLen(ws: seq<uint32>, i: nat): nat
    requires 2 * i + 1 < |ws|
  {
    ws[2 * i] % 0x1_0000
  }

  function OldValLen(ws: seq<uint32>, i: nat): nat
    requires 2 * i + 1 < |ws|
  {
    ws[2 * i] / 0x1_0000
  }

  predicate OldIsNull(ws: seq<uint32>, i: nat)
    requires 2 * i + 1 < |ws|
  {
    ws[2 * i + 1] % 2 == 1
  }

  function OldPos(ws: seq<uint32>, i: nat): nat
    requires 2 * i + 1 < |ws|
  {
    ws[2 * i + 1] / 2
  }

  /** The bytes of a value; a null has none, whatever its length field says. */
  function OldValBytes(ws: seq<uint32>, i: nat): nat
    requires 2 * i + 1 < |ws|
  {
    if OldIsNull(ws, i) then 0 else OldValLen(ws, i)
  }

  /** Where entry n has to start. */
  function OldEnd(ws: seq<uint32>, n: nat): nat
    requires 2 * n <= |ws|
  {
    if n == 0 then 0 else OldEnd(ws, n - 1) + OldKeyLen(ws, n - 1) + OldValBytes(ws, n - 1)
  }

  ghost predicate Contiguous(ws: seq<uint32>, n: nat)
    requires 2 * n <= |ws|
  {
    forall i | 0 <= i < n :: OldPos(ws, i) == OldEnd(ws, i)
  }

  ghost predicate KeysNotShorter(ws: seq<uint32>, n: nat)
    requires 2 * n <= |ws|
  {
    forall i | 0 < i < n :: OldKeyLen(ws, i - 1) <= OldKeyLen(ws, i)
  }

  /** A valid old value of n pairs and vsize bytes. */
  ghost predicate OldOk(ws: seq<uint32>, n: nat, vsize: nat) {
    && 2 * n <= |ws|
    && Contiguous(ws, n) && KeysNotShorter(ws, n) && DataSize(n, OldEnd(ws, n)) <= vsize
  }

  /** The pair an old entry stands for. */
  ghost function OldPairAt(ws: seq<uint32>, str: bytes, i: nat): Pair
    requires 2 * i + 1 < |ws|
  {
    var p, k := OldPos(ws, i), OldPos(ws, i) + OldKeyLen(ws, i);
    Pair(Slice(str, p, k), if OldIsNull(ws, i) then None else Some(Slice(str, k, k + OldValLen(ws, i))))
  }

  ghost function OldPairs(ws: seq<uint32>, str: bytes, n: nat): (ps: seq<Pair>)
    requires 2 * n <= |ws|
    ensures |ps| == n && forall i | 0 <= i < n :: ps[i] == OldPairAt(ws, str, i)
  {
    seq(n, i requires 0 <= i < n => OldPairAt(ws, str, i))
  }

  lemma {:induction false} OldEndMonotone(ws: seq<uint32>, i: nat, n: nat)
    requires i <= n && 2 * n <= |ws|
    ensures OldEnd(ws, i) <= OldEnd(ws, n)
  {
    if i < n {
      OldEndMonotone(ws, i, n - 1);
    }
  }

  /** The string bytes of one old pair. */
  lemma {:induction false} OldItem(ws: seq<uint32>, str: bytes, i: nat)
    requires 2 * i + 1 < |ws| && OldPos(ws, i) == OldEnd(ws, i) && OldEnd(ws, i + 1) <= |str|
    ensures |OldPairAt(ws, str, i).key| == OldKeyLen(ws, i)
    ensures |Item(OldPairAt(ws, str, i))| == OldKeyLen(ws, i) + OldValBytes(ws, i)
    ensures Item(OldPairAt(ws, str, i)) == str[OldEnd(ws, i)..OldEnd(ws, i + 1)]
    ensures OldPairAt(ws, str, i).val.None? == OldIsNull(ws, i)
  {
    hide OldKeyLen, OldValLen, OldPos, OldIsNull;
    assert OldEnd(ws, i + 1) == OldEnd(ws, i) + OldKeyLen(ws, i) + OldValBytes(ws, i);
    var p, k, q := OldEnd(ws, i), OldEnd(ws, i) + OldKeyLen(ws, i), OldEnd(ws, i + 1);
    hide OldEnd;
    assert str[p..k] + str[k..q] == str[p..q];
  }

  /** The buffer of an old value already is the buffer of its pairs. */
  lemma {:induction false} OldStr(ws: seq<uint32>, str: bytes, n: nat, i: nat)
    requires i <= n && 2 * n <= |ws| && Contiguous(ws, n) && OldEnd(ws, n) <= |str|
    ensures OldEnd(ws, i) <= |str| && Str(OldPairs(ws, str, n)[..i]) == str[..OldEnd(ws, i)]
    decreases i
  {
    hide OldPairAt, OldPos, OldKeyLen, OldValBytes, Item, RawEntries;
    OldEndMonotone(ws, i, n);
    var ps := OldPairs(ws, str, n);
    if i == 0 {
      assert ps[..0] == [];
    } else {
      OldStr(ws, str, n, i - 1);
      OldItem(ws, str, i - 1);
      hide OldEnd, Str;
      WrittenGrows(ps[..i - 1], ps[i - 1]);
      assert ps[..i] == ps[..i - 1] + [ps[i - 1]];
      OldEndMonotone(ws, i - 1, i);
      assert str[..OldEnd(ws, i - 1)] + str[OldEnd(ws, i - 1)..OldEnd(ws, i)] == str[..OldEnd(ws, i)];
    }
  }

  /** The two new words of an old pair. */
  lemma {:induction false} NewWords(ws: seq<uint32>, str: bytes, n: nat, i: nat)
    requires i < n && 2 * n <= |ws| && Contiguous(ws, n) && OldEnd(ws, n) <= |str|
    ensures var ps := OldPairs(ws, str, n);
            RawEntries(ps[..i + 1]) ==
            RawEntries(ps[..i]) + [Entry(false, OldPos(ws, i) + OldKeyLen(ws, i)),
                                   Entry(OldIsNull(ws, i), OldPos(ws, i) + OldKeyLen(ws, i) + OldValBytes(ws, i))]
  {
    hide OldPairAt, OldPos, OldKeyLen, OldValBytes, OldIsNull, Item, RawEntries, Str, Entry;
    var ps := OldPairs(ws, str, n);
    OldStr(ws, str, n, i);
    OldEndMonotone(ws, i + 1, n);
    OldItem(ws, str, i);
    WrittenGrows(ps[..i], ps[i]);
    assert ps[..i + 1] == ps[..i] + [ps[i]];
    assert |str[..OldEnd(ws, i)]| == OldEnd(ws, i);
  }

  // ----- new entries -----

  function NewKeyLen(es: seq<uint32>, i: nat): int
    requires 2 * i < |es|
  {
    if i == 0 || EntryIsFirst(es[2 * i]) then EndPos(es[2 * i]) else EndPos(es[2 * i]) - EndPos(es[2 * i - 1])
  }

  /** Positions never decrease, and only the first entry carries the first-entry flag. */
  ghost predicate NewPositions(es: seq<uint32>, n: nat)
    requires 2 * n <= |es|
  {
    forall i | 0 < i < 2 * n :: !EntryIsFirst(es[i]) && EndPos(es[i - 1]) <= EndPos(es[i])
  }

  /** Key lengths never decrease, and keys are not null. */
  ghost predicate NewKeys(es: seq<uint32>, n: nat)
    requires 2 * n <= |es|
  {
    forall i | 0 < i < n :: NewKeyLen(es, i - 1) <= NewKeyLen(es, i) && !EntryIsNull(es[2 * i])
  }

  /** A valid value of n > 0 pairs in the new format, without the version flag. */
  ghost predicate NewOk(es: seq<uint32>, n: nat, vsize: nat)
    requires 0 < n && 2 * n <= |es|
  {
    && EntryIsFirst(es[0]) && DataSize(n, EndPos(es[2 * n - 1])) <= vsize
    && NewPositions(es, n) && NewKeys(es, n)
  }

  /** A value in memory: the two header words, the words of the entry area, and the bytes
      after the entries up to the end of the value. */
  class Value {
    var vsize: nat
    var size: uint32
    const words: array<uint32>
    var str: bytes

    constructor (vsize: nat, size: uint32, words: array<uint32>, str: bytes)
      ensures this.vsize == vsize && this.size == size && this.words == words && this.str == str
    {
      this.vsize, this.size, this.words, this.str := vsize, size, words, str;
    }

    function Pairs(): nat
      reads this
    {
      size % COUNT_LIMIT
    }

    /** The entries can be read, and the rest of the value is the buffer. */
    ghost predicate Readable()
      reads this
    {
      && vsize <= MAX_SIZE && 2 * Pairs() <= words.Length && (size > 0 ==> words.Length > 0)
      && |str| == if DataSize(Pairs(), 0) <= vsize then vsize - DataSize(Pairs(), 0) else 0
    }

    /** The value as a packed hstore. */
    ghost function Packed(): HStore
      requires 2 * Pairs() <= words.Length
      reads this, words
    {
      HStore(vsize, size, words[..2 * Pairs()], str)
    }

    method CheckNewPositions(count: nat) returns (ok: bool)
      requires 0 < count && 2 * count <= words.Length
      ensures ok <==> NewPositions(words[..], count)
    {
      hide EntryIsFirst, EndPos;
      ghost var es := words[..];
      var i := 1;
      while i < 2 * count
        invariant 1 <= i <= 2 * count
        invariant forall k | 0 < k < i :: !EntryIsFirst(es[k]) && EndPos(es[k - 1]) <= EndPos(es[k])
      {
        if EntryIsFirst(words[i]) || EndPos(words[i]) < EndPos(words[i - 1]) {
          return false;
        }
        i := i + 1;
      }
      ok := true;
    }

    method CheckNewKeys(count: nat) returns (ok: bool)
      requires 0 < count && 2 * count <= words.Length
      ensures ok <==> NewKeys(words[..], count)
    {
      hide EntryIsNull, NewKeyLen;
      ghost var es := words[..];
      var i := 1;
      while i < count
        invariant 1 <= i <= count
        invariant forall k | 0 < k < i :: NewKeyLen(es, k - 1) <= NewKeyLen(es, k) && !EntryIsNull(es[2 * k])
      {
        if NewKeyLen(words[..], i) < NewKeyLen(words[..], i - 1) {
          return false;
        }
        if EntryIsNull(words[2 * i]) {
          return false;
        }
        i := i + 1;
      }
      ok := true;
    }

    /** hstoreValidNewFormat. */
    method ValidNewFormat() returns (v: int)
      requires Readable()
      ensures 0 <= v <= 2
      ensures size >= NEW_VERSION || Pairs() == 0 ==> v == 2
      ensures size < NEW_VERSION && Pairs() > 0 ==> (v > 0 <==> NewOk(words[..], Pairs(), vsize))
      ensures size < NEW_VERSION && Pairs() > 0 ==>
                (v == 2 <==> v > 0 && vsize == DataSize(Pairs(), EndPos(words[2 * Pairs() - 1])))
    {
      hide NewPositions, NewKeys, EntryIsFirst, EndPos;
      var count := Pairs();
      var buflen := if count > 0 then EndPos(words[2 * count - 1]) else 0;
      var need := DataSize(count, buflen);
      if size >= NEW_VERSION {
        return 2;
      }
      if count == 0 {
        return 2;
      }
      if !EntryIsFirst(words[0]) {
        return 0;
      }
      if need > vsize {
        return 0;
      }
      var ok := CheckNewPositions(count);
      if !ok {
        return 0;
      }
      ok := CheckNewKeys(count);
      if !ok {
        return 0;
      }
      v := if need != vsize then 1 else 2;
    }

    /** The key lengths never decrease. */
    method CheckKeyLengths(count: nat) returns (ok: bool)
      requires 2 * count <= words.Length
      ensures ok <==> KeysNotShorter(words[..], count)
    {
      hide OldKeyLen;
      ghost var ws := words[..];
      var i := 1;
      while i < count
        invariant 1 <= i && (count > 0 ==> i <= count)
        invariant forall k | 0 < k < i && k < count :: OldKeyLen(ws, k - 1) <= OldKeyLen(ws, k)
      {
        if OldKeyLen(words[..], i) < OldKeyLen(words[..], i - 1) {
          return false;
        }
        i := i + 1;
      }
      ok := true;
    }

    /** Every entry starts where the one before ends; gives the end of the last. */
    method CheckPositions(count: nat) returns (ok: bool, lastpos: nat)
      requires 2 * count <= words.Length
      ensures ok <==> Contiguous(words[..], count)
      ensures ok ==> lastpos == OldEnd(words[..], count)
    {
      hide OldKeyLen, OldValLen, OldPos, OldIsNull, OldValBytes;
      ghost var ws := words[..];
      lastpos := 0;
      var i := 0;
      while i < count
        invariant 0 <= i <= count && lastpos == OldEnd(ws, i)
        invariant forall k | 0 <= k < i :: OldPos(ws, k) == OldEnd(ws, k)
      {
        if OldPos(words[..], i) != lastpos {
          return false, lastpos;
        }
        lastpos := lastpos + OldKeyLen(words[..], i) + OldValBytes(words[..], i);
        i := i + 1;
      }
      ok := true;
    }

    /** hstoreValidOldFormat. */
    method ValidOldFormat() returns (v: int)
      requires Readable()
      ensures 0 <= v <= 2
      ensures size == 0 ==> v == 2
      ensures size >= COUNT_LIMIT ==> v == 0
      ensures 0 < size < COUNT_LIMIT ==> (v > 0 <==> OldOk(words[..], size, vsize))
      ensures 0 < size < COUNT_LIMIT ==> (v == 2 <==> v > 0 && vsize == DataSize(size, OldEnd(words[..], size)))
    {
      hide OldPos, Contiguous, KeysNotShorter, OldEnd;
      var count := size;
      if size >= NEW_VERSION {
        return 0;
      }
      if count == 0 {
        return 2;
      }
      if count > 0xFFF_FFFF {
        return 0;
      }
      if DataSize(count, 0) > vsize {
        return 0;
      }
      if OldPos(words[..], 0) != 0 {
        FirstPosition(words[..], count);
        return 0;
      }
      var ok := CheckKeyLengths(count);
      if !ok {
        return 0;
      }
      var lastpos;
      ok, lastpos := CheckPositions(count);
      if !ok {
        return 0;
      }
      var need := DataSize(count, lastpos);
      if need > vsize {
        return 0;
      }
      v := if need != vsize then 1 else 2;
    }

    /** HS_SETCOUNT and HS_FIXSIZE: the bytes after the last entry's end leave the value. */
    method SetHeader(count: nat)
      requires count < COUNT_LIMIT && 2 * count <= words.Length
      modifies this
      ensures Pairs() == count && Packed() == Shortcut(words[..], old(str), count)
    {
      var len := if count > 0 then EndPos(words[2 * count - 1]) else 0;
      size := count + NEW_VERSION;
      vsize := DataSize(count, len);
      str := Cut(str, len);
    }

    /** The loop that overwrites old entries with new ones. */
    method Rewrite(count: nat, ghost ps: seq<Pair>)
      requires 0 < count && 2 * count <= words.Length && Contiguous(words[..], count)
      requires OldEnd(words[..], count) <= |str| && ps == OldPairs(words[..], str, count)
      modifies words
      ensures words[..2 * count] == Marked(RawEntries(ps))
    {
      hide OldPos, OldKeyLen, OldValBytes, OldIsNull, RawEntries, Contiguous, OldEnd, OldPairs, Entry;
      ghost var ws := words[..];
      var i := 0;
      RawNone(ps);
      while i < count
        invariant 0 <= i <= count && words[..2 * i] == RawEntries(ps[..i])
        invariant forall k | 2 * i <= k < words.Length :: words[k] == ws[k]
      {
        NewWords(ws, str, count, i);
        SameEntry(words[..], ws, i);
        var now := words[..];
        var pos, keylen, vallen, isNull := OldPos(now, i), OldKeyLen(now, i), OldValBytes(now, i), OldIsNull(now, i);
        ghost var front := words[..2 * i];
        words[2 * i] := Entry(false, pos + keylen);
        words[2 * i + 1] := Entry(isNull, pos + keylen + vallen);
        assert words[..2 * i] == front;
        i := i + 1;
      }
      assert ps[..i] == ps by { OldPairsLength(ws, str, count); }
      ghost var raw := words[..2 * count];
      words[0] := words[0] % ISFIRST + ISFIRST;
      assert words[..2 * count] == raw[0 := raw[0] % ISFIRST + ISFIRST];
    }

    ghost predicate TakenAsNew()
      reads this, words
    {
      Taken(words[..], size, vsize)
    }

    /** hstoreUpgrade; false stands for the error on an invalid value. A valid old value
        becomes exactly the packed form of its pairs, unless it was taken as new. */
    method Upgrade() returns (ok: bool)
      requires Readable()
      modifies this, words
      ensures old(size) >= NEW_VERSION ==> ok && size == old(size) && vsize == old(vsize) && str == old(str)
      ensures old(size) >= NEW_VERSION ==> words[..] == old(words[..])
      ensures old(size) < NEW_VERSION && old(TakenAsNew()) ==>
                ok && words[..] == old(words[..]) && Pairs() == old(Pairs()) && Packed() == Shortcut(old(words[..]), old(str), old(Pairs()))
      ensures 0 < old(size) < COUNT_LIMIT && !old(TakenAsNew()) && OldOk(old(words[..]), old(size), old(vsize)) ==>
                ok && Pairs() == old(size) && Packed() == Pack(OldPairs(old(words[..]), old(str), old(size)))
      ensures 0 < old(size) < NEW_VERSION && !old(TakenAsNew()) &&
              (old(size) >= COUNT_LIMIT || !OldOk(old(words[..]), old(size), old(vsize))) ==>
                words[..] == old(words[..]) &&
                (ok <==> old(Pairs()) == 0 || NewOk(old(words[..]), old(Pairs()), old(vsize))) &&
                (ok ==> Pairs() == old(Pairs()) && Packed() == Shortcut(old(words[..]), old(str), old(Pairs())))
    {
      hide EntryIsFirst, Pack, OldOk, NewOk, OldPairs;
      if size >= NEW_VERSION {
        return true;
      }
      if size == 0 || (vsize < 32768 && EntryIsFirst(words[0])) {
        SetHeader(Pairs());
        return true;
      }
      var validNew := ValidNewFormat();
      var validOld := ValidOldFormat();
      if validOld == 0 || size == 0 {
        if validNew != 0 {
          SetHeader(Pairs());
          return true;
        } else {
          return false;
        }
      }
      UpgradeOld();
      ok := true;
    }

    /** The last part of the upgrade: rewrite the entries, then fix the header. */
    method UpgradeOld()
      requires Readable() && 0 < size < COUNT_LIMIT && OldOk(words[..], size, vsize)
      modifies this, words
      ensures Pairs() == old(size) && Packed() == Pack(OldPairs(old(words[..]), old(str), old(size)))
    {
      hide RawEntries, OldEnd, OldPairs, EndPos, Marked, Contiguous, KeysNotShorter, Shortcut, Pack, Str;
      var count: nat := size;
      ghost var ws, was, had := words[..], str, vsize;
      ghost var ps := OldPairs(ws, was, count);
      UpgradedSize(ws, was, count, had);
      Rewrite(count, ps);
      RewrittenIsPack(words[..], ws, was, count, had);
      SetHeader(count);
    }
  }

  /** The value is treated as new: the flag and the length are forced. */
  ghost predicate Taken(ws: seq<uint32>, size: nat, vsize: nat) {
    size == 0 || (ws != [] && vsize < 32768 && EntryIsFirst(ws[0]))
  }

  function Cut(s: bytes, len: nat): bytes {
    if len <= |s| then s[..len] else s
  }

  lemma {:induction false} FirstPosition(ws: seq<uint32>, n: nat)
    requires 0 < n && 2 * n <= |ws| && OldPos(ws, 0) != 0
    ensures !Contiguous(ws, n)
  {
    assert OldEnd(ws, 0) == 0;
  }

  lemma {:induction false} RawNone(ps: seq<Pair>)
    ensures RawEntries(ps[..0]) == []
  {
  }

  lemma {:induction false} OldPairsLength(ws: seq<uint32>, str: bytes, n: nat)
    requires 2 * n <= |ws|
    ensures |OldPairs(ws, str, n)| == n
  {
  }

  lemma {:induction false} SameEntry(now: seq<uint32>, ws: seq<uint32>, i: nat)
    requires |now| == |ws| && 2 * i + 1 < |ws| && now[2 * i] == ws[2 * i] && now[2 * i + 1] == ws[2 * i + 1]
    ensures OldPos(now, i) == OldPos(ws, i) && OldKeyLen(now, i) == OldKeyLen(ws, i)
    ensures OldValBytes(now, i) == OldValBytes(ws, i) && OldIsNull(now, i) == OldIsNull(ws, i)
  {
  }

  /** The last new entry ends where the old value's bytes end. */
  lemma {:induction false} UpgradedSize(ws: seq<uint32>, str: bytes, n: nat, vsize: nat)
    requires 0 < n && OldOk(ws, n, vsize) && vsize <= MAX_SIZE && |str| == vsize - DataSize(n, 0)
    ensures var ps := OldPairs(ws, str, n);
            && |ps| == n && OldEnd(ws, n) <= |str| && Str(ps) == str[..OldEnd(ws, n)] && Fits(ps)
            && |Pack(ps).entries| == 2 * n && Pack(ps).entries == Marked(RawEntries(ps))
            && EndPos(Pack(ps).entries[2 * n - 1]) == |Str(ps)|
  {
    hide OldPos, OldKeyLen, OldValBytes, OldIsNull, RawEntries, OldEnd, OldPairAt, Entry, EndPos, Str, Marked;
    var ps := OldPairs(ws, str, n);
    OldStr(ws, str, n, n);
    assert ps[..n] == ps;
    assert |str[..OldEnd(ws, n)]| == OldEnd(ws, n);
    PackedValEntry(ps, n - 1);
  }

  /** The rewritten entries under the new header are the packed form. */
  lemma {:induction false} RewrittenIsPack(now: seq<uint32>, ws: seq<uint32>, str: bytes, n: nat, vsize: nat)
    requires 0 < n < COUNT_LIMIT && OldOk(ws, n, vsize) && vsize <= MAX_SIZE && |str| == vsize - DataSize(n, 0)
    requires 2 * n <= |now| && now[..2 * n] == Marked(RawEntries(OldPairs(ws, str, n)))
    ensures Shortcut(now, str, n) == Pack(OldPairs(ws, str, n))
  {
    hide RawEntries, OldEnd, OldPairs, EndPos, Marked, OldOk, Str;
    UpgradedSize(ws, str, n, vsize);
    assert now[2 * n - 1] == now[..2 * n][2 * n - 1];
  }

  /** The upgraded value decodes to the old value's pairs, and its size is exact. */
  lemma {:induction false} UpgradeDecodes(ws: seq<uint32>, str: bytes, n: nat, vsize: nat)
    requires 0 < n && OldOk(ws, n, vsize) && vsize <= MAX_SIZE && |str| == vsize - DataSize(n, 0)
    ensures var ps := OldPairs(ws, str, n);
            && |Pack(ps).entries| == 2 * Count(Pack(ps)) && Decode(Pack(ps)) == ps
            && Pack(ps).vsize == DataSize(n, OldEnd(ws, n)) <= vsize
  {
    hide OldPairs, Pack, Decode, Contiguous, KeysNotShorter;
    UpgradedSize(ws, str, n, vsize);
    DecodePack(OldPairs(ws, str, n));
    PackSize(OldPairs(ws, str, n));
  }

  lemma {:induction false} PackSize(ps: seq<Pair>)
    ensures Pack(ps).vsize == DataSize(|ps|, |Str(ps)|)
  {
  }

  // ----- the shortcut -----

  /** An old value is taken as new exactly when it is under 32768 bytes and its first value is a
      null with a length field of 32768 or more; with a non-null first value it never is. */
  lemma {:induction false} ShortcutIff(ws: seq<uint32>, n: nat, vsize: nat)
    requires 0 < n && OldOk(ws, n, vsize)
    ensures Taken(ws, n, vsize) <==> vsize < 32768 && OldIsNull(ws, 0) && OldValLen(ws, 0) >= 32768
  {
    assert OldEnd(ws, 1) == OldKeyLen(ws, 0) + OldValBytes(ws, 0) by { assert OldEnd(ws, 0) == 0; }
    OldEndMonotone(ws, 1, n);
  }

  /** What forcing the flag and the length makes of a value: the same entries under a new header. */
  ghost function Shortcut(ws: seq<uint32>, str: bytes, n: nat): HStore
    requires 2 * n <= |ws| && n < COUNT_LIMIT
  {
    var len := if n > 0 then EndPos(ws[2 * n - 1]) else 0;
    HStore(DataSize(n, len), n + NEW_VERSION, ws[..2 * n], Cut(str, len))
  }

  /** A value that takes the shortcut by mistake loses the null of its first pair: it decodes to
      as many pairs, of which the first has a value. */
  lemma {:induction false} ShortcutLosesNull(ws: seq<uint32>, str: bytes, n: nat, vsize: nat)
    requires 0 < n < COUNT_LIMIT && OldOk(ws, n, vsize) && Taken(ws, n, vsize)
    ensures var h := Shortcut(ws, str, n);
            && |h.entries| == 2 * Count(h) && |Decode(h)| == n && Decode(h)[0].val.Some?
            && OldPairs(ws, str, n)[0].val.None? && Decode(h) != OldPairs(ws, str, n)
  {
    ShortcutIff(ws, n, vsize);
    assert OldPos(ws, 0) == OldEnd(ws, 0) == 0;
    hide OldPairs, OldEnd, Contiguous, KeysNotShorter, Slice, KeyAt, ValBytesAt;
    var h := Shortcut(ws, str, n);
    assert h.entries[1] == ws[1] && !EntryIsNull(ws[1]);
    assert Decode(h)[0] == PairAt(h, 0);
    assert OldPairs(ws, str, n)[0] == OldPairAt(ws, str, 0);
  }

  /** There is such a value: one empty key with a null value. */
  lemma {:induction false} ShortcutExample()
    ensures OldOk([0x8000_0000, 1], 1, 16) && Taken([0x8000_0000, 1], 1, 16)
    ensures OldPairs([0x8000_0000, 1], [], 1) == [Pair([], None)]
  {
    var ws: seq<uint32> := [0x8000_0000, 1];
    assert OldEnd(ws, 0) == 0 && OldEnd(ws, 1) == 0;
    assert OldPairAt(ws, [], 0) == Pair([], None);
  }
}
