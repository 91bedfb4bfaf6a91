/**
 Text round trip of hstore: what hstore_out prints is a spelling of the pairs, hstore_in reads
 it back, and packing gives the identical value (contrib/hstore/hstore_io.c).
 */
module HstoreRoundTrip {
  import opened Wrappers
  import opened ByteOrder
  import opened HstoreFormat
  import opened HstoreMap
  import opened HstoreOps
  import opened HstoreMerge
  import opened HstorePairs
  import opened HstoreText
  import opened HstoreGrammar
  import opened HstoreLanguage
  import opened HstorePrint

  /** The spelling the printer chooses for a word. */
  function SymsOf(w: bytes): seq<Sym> {
    if w == [] then [] else [Sym(w[0] == QUOTE || w[0] == BACKSLASH, w[0])] + SymsOf(w[1..])
  }

  lemma {:induction false} SymsOfFacts(w: bytes)
    requires NoNul(w)
    ensures Yield(SymsOf(w)) == Escape(w) && Spells(SymsOf(w)) == w
    ensures forall i | 0 <= i < |SymsOf(w)| :: QuotedOk(SymsOf(w)[i])
  {
    hide QuotedOk, Yield, Spells, Escape;
    EscapeUnfold(w);
    if w != [] {
      SymsOfFacts(w[1..]);
      var c := Sym(w[0] == QUOTE || w[0] == BACKSLASH, w[0]);
      YieldCons(c, SymsOf(w[1..]), []);
      EscapedOk(c);
      assert Yield(SymsOf(w)) + [] == Yield(SymsOf(w));
    }
  }

  lemma {:induction false} EscapeUnfold(w: bytes)
    ensures w == [] ==> Escape(w) == [] && Yield([]) == [] && Spells([]) == []
    ensures w != [] ==>
              Escape(w) == SymText(Sym(w[0] == QUOTE || w[0] == BACKSLASH, w[0])) + (Escape(w[1..]) + [])
  {
  }

  lemma {:induction false} EscapedOk(c: Sym)
    requires c.b != 0 && (c.b == QUOTE || c.b == BACKSLASH ==> c.esc)
    ensures QuotedOk(c)
  {
  }

  function NullWord(): Spelled {
    Bare(Sym(false, 78), [Sym(false, 85), Sym(false, 76), Sym(false, 76)])
  }

  lemma {:induction false} NullWordFacts()
    ensures WordOk(NullWord(), true) && WordText(NullWord()) == NULL_TEXT && WordBytes(NullWord()) == NULL_TEXT
    ensures IsNull(WordBytes(NullWord()))
  {
    assert "NULL" in NULLS && NULL_TEXT == Ascii("NULL");
    var a, b := Sym(false, 85), Sym(false, 76);
    assert NullWord().rest == [a] + ([b] + ([b] + []));
    YieldCons(b, [], []);
    YieldCons(b, [b], []);
    YieldCons(a, [b] + [b], []);
    assert Yield([b]) == [76] && Yield([b] + [b]) == [76, 76] && Yield([a] + ([b] + [b])) == [85, 76, 76];
    assert [a] + ([b] + [b]) == NullWord().rest;
  }

  /** A pair as it is printed. */
  function Printed(p: Pair, lead: bytes): SpelledPair {
    SpelledPair(lead, Quoted(SymsOf(p.key)), [], [], if p.val.None? then NullWord() else Quoted(SymsOf(p.val.value)), [])
  }

  ghost predicate PrintablePair(p: Pair) {
    && NoNul(p.key) && |p.key| <= WORD_MAX
    && (p.val.Some? ==> NoNul(p.val.value) && |p.val.value| <= WORD_MAX)
  }

  lemma {:induction false} PrintedFacts(p: Pair, lead: bytes, tail: bytes)
    requires PrintablePair(p) && Spaces(lead)
    ensures PairOk(Printed(p, lead)) && PairMeaning(Printed(p, lead)) == p
    ensures PairText(Printed(p, lead), tail) == lead + PairOut(p) + tail
  {
    hide Escape, SymsOf, Yield, Spells, QuotedOk, FirstOk, BareOk, NoNul, IsNull;
    SymsOfFacts(p.key);
    if p.val.Some? {
      SymsOfFacts(p.val.value);
    } else {
      NullWordFacts();
    }
  }

  function DocOf(ps: seq<Pair>, lead: bytes): Doc {
    if ps == [] then End([])
    else if |ps| == 1 then Last(Printed(ps[0], lead))
    else More(Printed(ps[0], lead), DocOf(ps[1..], [SPACE]))
  }

  lemma {:induction false} SpaceIsSpace()
    ensures Spaces([]) && Spaces([SPACE])
  {
  }

  /** The printed text is a spelling of the list. */
  lemma {:induction false} PrintedIsSpelling(ps: seq<Pair>, lead: bytes)
    requires forall i | 0 <= i < |ps| :: PrintablePair(ps[i])
    requires Spaces(lead)
    ensures DocOk(DocOf(ps, lead)) && DocMeaning(DocOf(ps, lead)) == ps
    ensures DocText(DocOf(ps, lead)) == if ps == [] then [] else lead + Render(ps)
  {
    hide PrintablePair, PairOk, PairMeaning, PairText, PairOut, Printed, Spaces;
    SpaceIsSpace();
    if |ps| == 1 {
      PrintedFacts(ps[0], lead, []);
      assert lead + PairOut(ps[0]) + [] == lead + PairOut(ps[0]);
    } else if |ps| > 1 {
      PrintedIsSpelling(ps[1..], [SPACE]);
      var tail := [COMMA] + ([SPACE] + Render(ps[1..]));
      PrintedFacts(ps[0], lead, tail);
      assert lead + PairOut(ps[0]) + tail == lead + (PairOut(ps[0]) + [COMMA, SPACE] + Render(ps[1..]));
    }
  }

  ghost predicate NoNulPairs(ps: seq<Pair>) {
    forall i | 0 <= i < |ps| :: NoNul(ps[i].key) && (ps[i].val.Some? ==> NoNul(ps[i].val.value))
  }

  /** The words of a printed value are short enough for the word buffer. */
  lemma {:induction false} BoundPrintable(ps: seq<Pair>, i: nat)
    requires Bound(ps) <= MAX_SIZE && NoNulPairs(ps) && i < |ps|
    ensures PrintablePair(ps[i])
  {
    hide Bound;
    BoundGrows(ps, i);
  }

  /** Reading what was printed gives back the pairs: nulls, the quoted word NULL, empty keys,
      quotes and backslashes included. A text of more than 2^24 pairs is refused. */
  lemma {:induction false} ReadPrinted(ps: seq<Pair>)
    requires Bound(ps) <= MAX_SIZE && NoNulPairs(ps)
    ensures Parse(Render(ps), 0, WKey, [], []) == if |ps| > PAIRS_MAX then ParseError else Pairs(ps)
  {
    hide Parse, Render, DocText, DocOk, DocMeaning, DocOf, PrintablePair, Bound;
    forall i | 0 <= i < |ps|
      ensures PrintablePair(ps[i])
    {
      BoundPrintable(ps, i);
    }
    PrintedIsSpelling(ps, []);
    RenderEmpty();
    var text := Render(ps);
    assert ps != [] ==> [] + text == text;
    assert text[0..] == text;
    GrammarIsRead(text, 0, DocOf(ps, []), []);
    assert [] + ps == ps;
  }

  /** hstore_in: parse, sort, unique and pack. `order` is what the sort makes of the pairs. The
      result is a canonical value holding one of the given values for every given key. */
  method HstoreIn(text: bytes, order: seq<Pair>) returns (h: Option<HStore>)
    requires var r := Parse(text, 0, WKey, [], []); r.Pairs? ==> SortOf(order, r.pairs)
    ensures var r := Parse(text, 0, WKey, [], []);
            match r
            case ParseError => h.None?
            case Pairs(ps) => if Fits(Unique(order)) then h == Some(Pack(Unique(order))) else h.None?
    ensures h.Some? ==> Canonical(h.value) && OneOfEach(Parse(text, 0, WKey, [], []).pairs, MapOf(h.value))
  {
    hide Parse, Unique, Pack, NonDecreasing, Sorted, Str, ToMap, OneOfEach;
    var parser := new HSParser(text);
    var ok := parser.ParseHstore();
    if !ok {
      return None;
    }
    var pairs := new Pair[|order|](i requires 0 <= i < |order| => order[i]);
    assert pairs[..|order|] == order;
    var n, buflen := UniquePairs(pairs, |order|);
    if DataSize(n, buflen) > MAX_SIZE {
      return None;
    }
    UniqueSorted(order);
    var packed := PackPairs(pairs[..n]);
    PackIsCanonical(Unique(order));
    UniqueMeaning(order, parser.pairs);
    h := Some(packed);
  }

  /** A map with exactly the keys of a list and for each key one of the values given to it. */
  ghost predicate OneOfEach(ps: seq<Pair>, m: map<bytes, Option<bytes>>) {
    && (forall p | p in ps :: p.key in m)
    && (forall k | k in m :: Pair(k, m[k]) in ps)
  }

  lemma {:induction false} UniqueMeaning(order: seq<Pair>, ps: seq<Pair>)
    requires SortOf(order, ps) && Sorted(Unique(order))
    ensures OneOfEach(ps, ToMap(Unique(order)))
  {
    hide Unique, ToMap, Sorted, NonDecreasing;
    var us := Unique(order);
    assert forall p :: p in order <==> p in multiset(order);
    assert forall p :: p in ps <==> p in multiset(ps);
    forall p | p in ps
      ensures p.key in ToMap(us)
    {
      UniqueMembers(order, p);
      var i: nat :| KeyIs(us, i, p.key);
      ToMapAt(us, i);
    }
    forall k | k in ToMap(us)
      ensures Pair(k, ToMap(us)[k]) in ps
    {
      var i := ToMapKey(us, k);
      ToMapAt(us, i);
      UniqueMembers(order, us[i]);
    }
  }

  /** Printing a canonical value without zero bytes and reading the text gives the identical
      packed value, in whatever order the sort leaves equal pairs, except that a value may be
      too long to print or have too many pairs to be read. */
  method OutThenIn(h: HStore, order: seq<Pair>) returns (back: Option<HStore>)
    requires Canonical(h) && NoNulPairs(Decode(h)) && SortOf(order, Decode(h))
    ensures back == if Bound(Decode(h)) > MAX_SIZE || |Decode(h)| > PAIRS_MAX then None else Some(h)
  {
    hide Canonical, Decode, Parse, Render, Bound, Unique, Pack, NoNulPairs, Sorted, Fits, SortOf, PairAt;
    CanonicalCount(h);
    var text := HstoreOut(h);
    if text.None? {
      return None;
    }
    ReadPrinted(Decode(h));
    SortOfSorted(order, Decode(h));
    UniqueKeeps(Decode(h));
    CanonicalPack(h);
    back := HstoreIn(text.value, order);
  }

  lemma {:induction false} CanonicalPack(h: HStore)
    requires Canonical(h)
    ensures Pack(Decode(h)) == h
  {
  }
}
