/**
 The packed form of an hstore (contrib/hstore/hstore.h): a header, two entries with end
 offsets for each pair, and one string buffer. The module defines the packed form of a list
 of pairs, the accessor macros that read it, and the writer that the operations build
 their results with.
 */
module HstoreFormat {
  import opened Wrappers
  import opened ByteOrder

  type uint32 = x: int | 0 <= x < 0x1_0000_0000

  const ISFIRST := 0x8000_0000
  const ISNULL := 0x4000_0000
  const POS_LIMIT := 0x4000_0000
  const NEW_VERSION := 0x8000_0000
  const COUNT_LIMIT := 0x1000_0000
  /** The largest size of a value and of an allocation. */
  const MAX_SIZE := 0x3FFF_FFFF

  /** One key with its value; no value stands for the SQL null. */
  datatype Pair = Pair(key: bytes, val: Option<bytes>)

  /** A packed value: its length word, its size word, the entries and the string buffer. */
  datatype HStore = HStore(vsize: nat, size: nat, entries: seq<uint32>, str: bytes)

  // ----- entries -----

  predicate EntryIsFirst(e: uint32) {
    e >= ISFIRST
  }

  predicate EntryIsNull(e: uint32) {
    e % ISFIRST >= ISNULL
  }

  function EndPos(e: uint32): nat {
    e % POS_LIMIT
  }

  function DataSize(count: nat, len: nat): nat {
    count * 8 + 8 + len
  }

  function Count(h: HStore): nat {
    h.size % COUNT_LIMIT
  }

  function Off(h: HStore, e: nat): nat
    requires e < |h.entries|
  {
    if EntryIsFirst(h.entries[e]) || e == 0 then 0 else EndPos(h.entries[e - 1])
  }

  function Slice(s: bytes, from: int, to: int): bytes {
    if 0 <= from <= to <= |s| then s[from..to] else []
  }

  function KeyAt(h: HStore, i: nat): bytes
    requires 2 * i + 1 < |h.entries|
  {
    Slice(h.str, Off(h, 2 * i), EndPos(h.entries[2 * i]))
  }

  predicate NullAt(h: HStore, i: nat)
    requires 2 * i + 1 < |h.entries|
  {
    EntryIsNull(h.entries[2 * i + 1])
  }

  /** The value's bytes; none for a null. */
  function ValBytesAt(h: HStore, i: nat): bytes
    requires 2 * i + 1 < |h.entries|
  {
    Slice(h.str, Off(h, 2 * i + 1), EndPos(h.entries[2 * i + 1]))
  }

  function PairAt(h: HStore, i: nat): Pair
    requires 2 * i + 1 < |h.entries|
  {
    Pair(KeyAt(h, i), if NullAt(h, i) then None else Some(ValBytesAt(h, i)))
  }

  // ----- the packed form of a list of pairs -----

  function ValBytes(v: Option<bytes>): bytes {
    if v.None? then [] else v.value
  }

  function Item(p: Pair): bytes {
    p.key + ValBytes(p.val)
  }

  /** The string buffer: keys and values back to back. */
  ghost function Str(ps: seq<Pair>): bytes {
    if ps == [] then [] else Str(ps[..|ps| - 1]) + Item(ps[|ps| - 1])
  }

  /** An end offset with the null flag. */
  function Entry(isNull: bool, pos: nat): uint32 {
    pos % POS_LIMIT + (if isNull then ISNULL else 0)
  }

  /** The entries before the first one is marked. */
  ghost function RawEntries(ps: seq<Pair>): (es: seq<uint32>)
    ensures |es| == 2 * |ps|
  {
    if ps == [] then []
    else
      var front, p := ps[..|ps| - 1], ps[|ps| - 1];
      RawEntries(front) + [Entry(false, |Str(front)| + |p.key|), Entry(p.val.None?, |Str(ps)|)]
  }

  function Marked(es: seq<uint32>): seq<uint32> {
    if es == [] then [] else es[0 := es[0] % ISFIRST + ISFIRST]
  }

  /** The packed form. */
  ghost function Pack(ps: seq<Pair>): HStore {
    HStore(DataSize(|ps|, |Str(ps)|), |ps| + NEW_VERSION, Marked(RawEntries(ps)), Str(ps))
  }

  /** The packed form is small enough to exist. */
  ghost predicate Fits(ps: seq<Pair>) {
    DataSize(|ps|, |Str(ps)|) <= MAX_SIZE
  }

  // ----- reading it back -----

  lemma {:induction false} EntryParts(isNull: bool, pos: nat)
    requires pos < POS_LIMIT
    ensures var e := Entry(isNull, pos); EndPos(e) == pos && EntryIsNull(e) == isNull && !EntryIsFirst(e)
    ensures Entry(isNull, pos) < ISFIRST
    ensures var e := Entry(isNull, pos) + ISFIRST; EndPos(e) == pos && EntryIsNull(e) == isNull && EntryIsFirst(e)
  {
  }

  lemma {:induction false} RawEntriesUnfold(ps: seq<Pair>)
    requires ps != []
    ensures var front, p := ps[..|ps| - 1], ps[|ps| - 1];
            RawEntries(ps) ==
            RawEntries(front) + [Entry(false, |Str(front)| + |p.key|), Entry(p.val.None?, |Str(ps)|)]
  {
  }

  lemma {:induction false} RawEntryAt(ps: seq<Pair>, i: nat)
    requires i < |ps|
    ensures RawEntries(ps)[2 * i] == Entry(false, |Str(ps[..i])| + |ps[i].key|)
    ensures RawEntries(ps)[2 * i + 1] == Entry(ps[i].val.None?, |Str(ps[..i + 1])|)
  {
    hide Str, Entry, RawEntries;
    RawEntriesUnfold(ps);
    var front := ps[..|ps| - 1];
    if i == |ps| - 1 {
      assert ps[..i + 1] == ps;
    } else {
      RawEntryAt(front, i);
      assert front[..i] == ps[..i] && front[..i + 1] == ps[..i + 1];
    }
  }

  lemma {:induction false} StrUnfold(ps: seq<Pair>)
    requires ps != []
    ensures Str(ps) == Str(ps[..|ps| - 1]) + Item(ps[|ps| - 1])
  {
  }

  /** The bytes of a pair stand between the ends of its neighbours. */
  lemma {:induction false} StrAt(ps: seq<Pair>, i: nat)
    requires i < |ps|
    ensures |Str(ps[..i + 1])| == |Str(ps[..i])| + |Item(ps[i])| && |Str(ps[..i + 1])| <= |Str(ps)|
    ensures Str(ps)[|Str(ps[..i])|..|Str(ps[..i + 1])|] == Item(ps[i])
  {
    hide Str, Item;
    var front := ps[..|ps| - 1];
    StrUnfold(ps);
    if i == |ps| - 1 {
      assert ps[..i + 1] == ps;
    } else {
      StrAt(front, i);
      assert front[..i] == ps[..i] && front[..i + 1] == ps[..i + 1];
    }
  }

  lemma {:induction false} PackedKeyEntry(ps: seq<Pair>, i: nat)
    requires i < |ps| && Fits(ps)
    ensures |Pack(ps).entries| == 2 * |ps|
    ensures EndPos(Pack(ps).entries[2 * i]) == |Str(ps[..i])| + |ps[i].key|
    ensures !EntryIsNull(Pack(ps).entries[2 * i]) && EntryIsFirst(Pack(ps).entries[2 * i]) == (i == 0)
  {
    hide Str, RawEntries, EndPos, EntryIsNull, EntryIsFirst, Entry;
    RawEntryAt(ps, i);
    StrAt(ps, i);
    EntryParts(false, |Str(ps[..i])| + |ps[i].key|);
  }

  lemma {:induction false} PackedValEntry(ps: seq<Pair>, i: nat)
    requires i < |ps| && Fits(ps)
    ensures |Pack(ps).entries| == 2 * |ps|
    ensures EndPos(Pack(ps).entries[2 * i + 1]) == |Str(ps[..i + 1])|
    ensures EntryIsNull(Pack(ps).entries[2 * i + 1]) == ps[i].val.None?
    ensures !EntryIsFirst(Pack(ps).entries[2 * i + 1])
  {
    hide Str, RawEntries, EndPos, EntryIsNull, EntryIsFirst, Entry;
    RawEntryAt(ps, i);
    StrAt(ps, i);
    EntryParts(ps[i].val.None?, |Str(ps[..i + 1])|);
  }

  /** Offsets are the ends of the entries before. */
  lemma {:induction false} PackedOffsets(ps: seq<Pair>, i: nat)
    requires i < |ps| && Fits(ps)
    ensures |Pack(ps).entries| == 2 * |ps|
    ensures Off(Pack(ps), 2 * i) == |Str(ps[..i])|
    ensures Off(Pack(ps), 2 * i + 1) == |Str(ps[..i])| + |ps[i].key|
  {
    hide RawEntries, EndPos, EntryIsNull, EntryIsFirst, Marked, Pack, Fits;
    assert i == 0 ==> Str(ps[..i]) == [];
    PackedKeyEntry(ps, i);
    PackedValEntry(ps, i);
    if i > 0 {
      PackedValEntry(ps, i - 1);
    }
  }

  lemma {:induction false} SliceParts(s: bytes, a: nat, b: nat, key: bytes, val: bytes)
    requires a <= b <= |s| && s[a..b] == key + val
    ensures Slice(s, a, a + |key|) == key && Slice(s, a + |key|, b) == val
  {
    assert |s[a..b]| == b - a;
    assert s[a..a + |key|] == s[a..b][..|key|];
    assert s[a + |key|..b] == s[a..b][|key|..];
  }

  lemma {:induction false} PackedHeader(ps: seq<Pair>)
    requires Fits(ps)
    ensures Count(Pack(ps)) == |ps| && Pack(ps).str == Str(ps)
  {
    hide Str, RawEntries, Marked;
  }

  /** The accessor macros read back every pair. */
  lemma {:induction false} ReadPacked(ps: seq<Pair>, i: nat)
    requires i < |ps| && Fits(ps)
    ensures Count(Pack(ps)) == |ps| && |Pack(ps).entries| == 2 * |ps|
    ensures PairAt(Pack(ps), i) == ps[i]
    ensures KeyAt(Pack(ps), i) == ps[i].key && ValBytesAt(Pack(ps), i) == ValBytes(ps[i].val)
    ensures NullAt(Pack(ps), i) == ps[i].val.None?
  {
    hide Str, RawEntries, EndPos, EntryIsNull, EntryIsFirst, Marked, Pack, Off, Slice, Fits, Count;
    PackedHeader(ps);
    PackedKeyEntry(ps, i);
    PackedValEntry(ps, i);
    PackedOffsets(ps, i);
    StrAt(ps, i);
    SliceParts(Str(ps), |Str(ps[..i])|, |Str(ps[..i + 1])|, ps[i].key, ValBytes(ps[i].val));
  }

  /** The list of pairs a packed value holds. */
  ghost function Decode(h: HStore): seq<Pair>
    requires |h.entries| == 2 * Count(h)
  {
    seq(Count(h), i requires 0 <= i < Count(h) => PairAt(h, i))
  }

  lemma {:induction false} DecodePack(ps: seq<Pair>)
    requires Fits(ps)
    ensures |Pack(ps).entries| == 2 * Count(Pack(ps)) && Decode(Pack(ps)) == ps
  {
    hide Str, RawEntries, PairAt;
    assert Count(Pack(ps)) == |ps|;
    var ds := seq(|ps|, i requires 0 <= i < |ps| => PairAt(Pack(ps), i));
    forall i | 0 <= i < |ps|
      ensures PairAt(Pack(ps), i) == ps[i]
    {
      ReadPacked(ps, i);
    }
    assert ds == ps;
  }

  /** The bytes of a pair stand together, the key first. */
  lemma {:induction false} ReadItem(ps: seq<Pair>, i: nat)
    requires i < |ps| && Fits(ps)
    ensures |Pack(ps).entries| == 2 * |ps|
    ensures Slice(Pack(ps).str, Off(Pack(ps), 2 * i), EndPos(Pack(ps).entries[2 * i + 1])) == Item(ps[i])
  {
    hide Str, RawEntries, EndPos, EntryIsNull, EntryIsFirst, Marked, Pack, Off, Fits, Count, Item;
    PackedHeader(ps);
    PackedValEntry(ps, i);
    PackedOffsets(ps, i);
    StrAt(ps, i);
  }

  // ----- building a packed value -----

  /** A value under construction: the entries written so far and the string buffer. The ghost
      field is the list of pairs they stand for. */
  class Writer {
    var ent: seq<uint32>
    var buf: bytes
    ghost var written: seq<Pair>

    ghost predicate Valid()
      reads this
    {
      ent == RawEntries(written) && buf == Str(written)
    }

    constructor ()
      ensures Valid() && written == []
    {
      ent, buf, written := [], [], [];
    }

    /** HS_COPYITEM: append a pair whose bytes stand together in another value. */
    method CopyItem(src: bytes, klen: nat, vlen: nat, vnull: bool, ghost p: Pair)
      requires Valid() && src == Item(p) && klen == |p.key| && vlen == |ValBytes(p.val)| && vnull == p.val.None?
      modifies this
      ensures Valid() && written == old(written) + [p]
    {
      hide RawEntries, Str, Entry;
      ghost var was := written;
      buf := buf + src;
      ent := ent + [Entry(false, |buf| - vlen)];
      ent := ent + [Entry(vnull, |buf|)];
      written := written + [p];
      WrittenGrows(was, p);
    }

    /** HS_ADDITEM: append a pair. */
    method AddItem(p: Pair)
      requires Valid()
      modifies this
      ensures Valid() && written == old(written) + [p]
    {
      hide RawEntries, Str, Entry;
      ghost var was := written;
      buf := buf + p.key;
      ent := ent + [Entry(false, |buf|)];
      if p.val.None? {
        ent := ent + [Entry(true, |buf|)];
      } else {
        buf := buf + p.val.value;
        ent := ent + [Entry(false, |buf|)];
      }
      written := written + [p];
      WrittenGrows(was, p);
      assert Str(was) + Item(p) == Str(was) + p.key + ValBytes(p.val);
    }

    /** HS_FINALIZE: mark the first entry and set count and size. */
    method Finalize(count: nat) returns (h: HStore)
      requires Valid() && count == |written|
      ensures h == Pack(written)
    {
      hide Str;
      var es := ent;
      if count > 0 {
        es := es[0 := es[0] % ISFIRST + ISFIRST];
      }
      h := HStore(DataSize(count, |buf|), count + NEW_VERSION, es, buf);
    }
  }

  lemma {:induction false} WrittenGrows(ps: seq<Pair>, p: Pair)
    ensures Str(ps + [p]) == Str(ps) + Item(p)
    ensures RawEntries(ps + [p]) ==
            RawEntries(ps) + [Entry(false, |Str(ps)| + |p.key|), Entry(p.val.None?, |Str(ps)| + |Item(p)|)]
  {
    hide Entry;
    assert (ps + [p])[..|ps|] == ps;
  }
}
