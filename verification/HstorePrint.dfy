/**
 The text output of hstore (cpw and hstore_out in contrib/hstore/hstore_io.c), written into a
 buffer whose length is computed beforehand.
 */
module HstorePrint {
  import opened Wrappers
  import opened ByteOrder
  import opened HstoreFormat
  import opened HstoreMap
  import opened HstoreOps
  import opened HstoreMerge
  import opened HstorePairs
  import opened HstoreText

  // ----- what is printed -----

  function Escape(w: bytes): bytes {
    if w == [] then []
    else (if w[0] == QUOTE || w[0] == BACKSLASH then [BACKSLASH] else []) + [w[0]] + Escape(w[1..])
  }

  function QuotedText(w: bytes): bytes {
    [QUOTE] + Escape(w) + [QUOTE]
  }

  /** The letters NULL. */
  const NULL_TEXT: bytes := [78, 85, 76, 76]

  function PairOut(p: Pair): bytes {
    QuotedText(p.key) + [EQ, GT] + (if p.val.None? then NULL_TEXT else QuotedText(p.val.value))
  }

  ghost function Render(ps: seq<Pair>): bytes {
    if ps == [] then []
    else if |ps| == 1 then PairOut(ps[0])
    else PairOut(ps[0]) + [COMMA, SPACE] + Render(ps[1..])
  }

  // ----- the buffer bound -----

  /** Room reserved for one pair: every byte may need an escape. */
  function PairBound(p: Pair): nat {
    6 + 2 * |p.key| + (2 + if p.val.None? then 2 else 2 * |p.val.value|)
  }

  ghost function Bound(ps: seq<Pair>): nat {
    if ps == [] then 0 else Bound(ps[..|ps| - 1]) + PairBound(ps[|ps| - 1])
  }

  lemma {:induction false} EscapeLength(w: bytes)
    ensures |w| <= |Escape(w)| <= 2 * |w|
  {
    if w != [] {
      EscapeLength(w[1..]);
    }
  }

  /** A printed pair leaves two bytes of its room: for the separator or the final zero. */
  lemma {:induction false} PairOutLength(p: Pair)
    ensures |PairOut(p)| + 2 <= PairBound(p)
  {
    EscapeLength(p.key);
    if p.val.Some? {
      EscapeLength(p.val.value);
    }
  }

  lemma {:induction false} BoundGrows(ps: seq<Pair>, i: nat)
    requires i < |ps|
    ensures Bound(ps[..i + 1]) == Bound(ps[..i]) + PairBound(ps[i]) && Bound(ps[..i + 1]) <= Bound(ps)
    decreases |ps| - i
  {
    assert ps[..i + 1][..i] == ps[..i];
    if i + 1 < |ps| {
      BoundGrows(ps, i + 1);
    } else {
      assert ps[..i + 1] == ps;
    }
  }

  /** The computation of the length cannot leave the range of int. */
  lemma {:induction false} BoundIsInt(ps: seq<Pair>)
    requires Fits(ps)
    ensures Bound(ps) < 0x8000_0000
  {
    BoundBelowSize(ps);
  }

  lemma {:induction false} BoundBelowSize(ps: seq<Pair>)
    ensures Bound(ps) <= 2 * TotalSize(ps)
  {
    hide TotalSize;
    if ps == [] {
    } else {
      var front, p := ps[..|ps| - 1], ps[|ps| - 1];
      BoundBelowSize(front);
      TotalSizeSnoc(front, p);
      assert ps == front + [p];
    }
  }

  // ----- writing -----

  method Put(out: array<byte>, n0: nat, c: byte) returns (n: nat)
    requires n0 < out.Length
    modifies out
    ensures n == n0 + 1 && out[..n] == old(out[..n0]) + [c]
  {
    out[n0] := c;
    n := n0 + 1;
  }

  /** cpw: copy with escapes. */
  method Cpw(out: array<byte>, n0: nat, w: bytes) returns (n: nat)
    requires n0 + |Escape(w)| <= out.Length
    modifies out
    ensures n == n0 + |Escape(w)| && out[..n] == old(out[..n0]) + Escape(w)
  {
    n := n0;
    ghost var before := out[..n0];
    var i := 0;
    assert w[0..] == w;
    while i < |w|
      invariant 0 <= i <= |w| && n + |Escape(w[i..])| == n0 + |Escape(w)|
      invariant out[..n] + Escape(w[i..]) == before + Escape(w)
    {
      EscapeStep(w, i);
      hide Escape;
      if w[i] == QUOTE || w[i] == BACKSLASH {
        n := Put(out, n, BACKSLASH);
      }
      n := Put(out, n, w[i]);
      i := i + 1;
    }
  }

  lemma {:induction false} EscapeStep(w: bytes, i: nat)
    requires i < |w|
    ensures Escape(w[i..]) ==
            (if w[i] == QUOTE || w[i] == BACKSLASH then [BACKSLASH] else []) + [w[i]] + Escape(w[i + 1..])
  {
    assert w[i..][1..] == w[i + 1..];
  }

  method PutQuoted(out: array<byte>, n0: nat, w: bytes) returns (n: nat)
    requires n0 + |QuotedText(w)| <= out.Length
    modifies out
    ensures n == n0 + |QuotedText(w)| && out[..n] == old(out[..n0]) + QuotedText(w)
  {
    hide Escape;
    n := Put(out, n0, QUOTE);
    n := Cpw(out, n, w);
    n := Put(out, n, QUOTE);
  }

  /** One pair, read through the accessors. */
  method PutPair(out: array<byte>, n0: nat, h: HStore, i: nat) returns (n: nat)
    requires Canonical(h) && i < Count(h) && |Decode(h)| == Count(h) && n0 + |PairOut(Decode(h)[i])| <= out.Length
    modifies out
    ensures n == n0 + |PairOut(Decode(h)[i])| && out[..n] == old(out[..n0]) + PairOut(Decode(h)[i])
  {
    hide Canonical, Decode, Count, QuotedText, KeyAt, ValBytesAt, NullAt, PairAt, Slice, Off, EndPos, Item;
    CanonicalCount(h);
    ReadCanonical(h, i);
    n := PutQuoted(out, n0, KeyAt(h, i));
    n := Put(out, n, EQ);
    n := Put(out, n, GT);
    if NullAt(h, i) {
      n := Put(out, n, 78);
      n := Put(out, n, 85);
      n := Put(out, n, 76);
      n := Put(out, n, 76);
    } else {
      n := PutQuoted(out, n, ValBytesAt(h, i));
    }
  }

  /** The first loop of hstore_out. */
  method BufferLength(h: HStore) returns (buflen: nat)
    requires Canonical(h)
    ensures buflen == Bound(Decode(h)) && buflen < 0x8000_0000
  {
    hide Canonical, Decode, Bound, Fits, Sorted, KeyAt, ValBytesAt, NullAt, PairAt, Slice, Off, EndPos, Item;
    CanonicalCount(h);
    ghost var ps := Decode(h);
    BoundIsInt(ps);
    buflen := 0;
    var i := 0;
    assert Bound(ps[..0]) == 0 by { BoundEmpty(); }
    while i < Count(h)
      invariant 0 <= i <= |ps| && buflen == Bound(ps[..i])
    {
      ReadCanonical(h, i);
      BoundGrows(ps, i);
      buflen := buflen + (6 + 2 * |KeyAt(h, i)|);
      buflen := buflen + (2 + if NullAt(h, i) then 2 else 2 * |ValBytesAt(h, i)|);
      i := i + 1;
    }
    assert ps[..i] == ps;
  }

  lemma {:induction false} BoundEmpty()
    ensures Bound([]) == 0
  {
  }

  lemma {:induction false} RenderStep(ps: seq<Pair>, i: nat)
    requires i < |ps|
    ensures Render(ps[i..]) ==
            PairOut(ps[i]) + (if i + 1 != |ps| then [COMMA, SPACE] else []) + Render(ps[i + 1..])
  {
    hide PairOut;
    assert ps[i..][1..] == ps[i + 1..];
    if i + 1 == |ps| {
      assert ps[i + 1..] == [];
    }
  }

  /** hstore_out. The text stays inside the buffer, with room for the final zero; the only
      failure is a buffer above the allocation limit. */
  method HstoreOut(h: HStore) returns (text: Option<bytes>)
    requires Canonical(h)
    ensures text.None? <==> Bound(Decode(h)) > MAX_SIZE
    ensures text.Some? ==> text.value == Render(Decode(h))
  {
    hide Canonical, Decode, Bound, Fits, Sorted, Render, PairOut, PairBound;
    CanonicalCount(h);
    ghost var ps := Decode(h);
    if Count(h) == 0 {
      BoundEmpty();
      assert Render([]) == [] by { RenderEmpty(); }
      return Some([]);
    }
    var buflen := BufferLength(h);
    if buflen > MAX_SIZE {
      return None;
    }
    var out := new byte[buflen];
    var n := PutAll(out, h);
    BoundEmpty();
    out[n] := 0;
    text := Some(out[..n]);
  }

  lemma {:induction false} RenderEmpty()
    ensures Render([]) == []
  {
  }

  method PutAll(out: array<byte>, h: HStore) returns (n: nat)
    requires Canonical(h) && Count(h) > 0 && out.Length == Bound(Decode(h))
    modifies out
    ensures n < out.Length && out[..n] == Render(Decode(h))
  {
    hide Canonical, Decode, Bound, Fits, Sorted, Render, PairOut, PairBound;
    CanonicalCount(h);
    ghost var ps := Decode(h);
    n := 0;
    var i := 0;
    BoundEmpty();
    assert ps[..0] == [] && ps[0..] == ps;
    while i < Count(h)
      invariant 0 <= i <= |ps| && n + (if i == |ps| then 2 else 0) <= Bound(ps[..i])
      invariant n <= out.Length && out[..n] + Render(ps[i..]) == Render(ps)
    {
      BoundGrows(ps, i);
      PairOutLength(ps[i]);
      RenderStep(ps, i);
      n := PutPair(out, n, h, i);
      if i + 1 != Count(h) {
        n := Put(out, n, COMMA);
        n := Put(out, n, SPACE);
      }
      i := i + 1;
    }
    assert ps[..i] == ps && ps[i..] == [];
    RenderEmpty();
  }
}
