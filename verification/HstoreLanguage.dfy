/**
 The other half of the grammar theorem: every text the parser accepts is a spelling. With
 HstoreGrammar this makes the accepted language and its meaning exact.
 */
module HstoreLanguage {
  import opened ByteOrder
  import opened HstoreFormat
  import opened HstoreText
  import opened HstoreGrammar

  /** A C string has no zero byte inside. */
  ghost predicate NoNul(s: bytes) {
    forall i | 0 <= i < |s| :: s[i] != 0
  }

  lemma {:induction false} Front(s: bytes, p: nat)
    requires p < |s|
    ensures s[p..] == [At(s, p)] + s[p + 1..]
  {
  }

  lemma {:induction false} YieldCons(c: Sym, cs: seq<Sym>, tail: bytes)
    ensures Yield([c] + cs) + tail == SymText(c) + (Yield(cs) + tail)
    ensures Spells([c] + cs) == [c.b] + Spells(cs)
  {
    assert ([c] + cs)[1..] == cs;
  }

  /** The spelling of the next byte inside a quoted word. */
  lemma {:induction false} QuotedStep(s: bytes, p: nat, word: bytes, e: bool, inValue: bool) returns (c: Sym, q: nat)
    requires p <= |s| && NoNul(s) && Scan(s, p, InEscVal, word, e, inValue).Word? && At(s, p) != QUOTE
    ensures p < q <= |s| && s[p..] == SymText(c) + s[q..] && QuotedOk(c)
    ensures Scan(s, p, InEscVal, word, e, inValue) == Scan(s, q, InEscVal, word + [c.b], e, inValue)
  {
    if At(s, p) == BACKSLASH {
      c, q := Sym(true, At(s, p + 1)), p + 2;
      Front(s, p);
      Front(s, p + 1);
    } else {
      c, q := Sym(false, At(s, p)), p + 1;
      Front(s, p);
    }
  }

  lemma {:induction false} QuotedEnd(s: bytes, p: nat, word: bytes, e: bool, inValue: bool)
    requires p <= |s| && At(s, p) == QUOTE
    ensures p < |s| && Scan(s, p, InEscVal, word, e, inValue) == Word(word, p + 1, e)
  {
  }

  lemma {:induction false} QuotedSpelling(s: bytes, p: nat, word: bytes, e: bool, inValue: bool) returns (cs: seq<Sym>)
    requires p <= |s| && NoNul(s) && Scan(s, p, InEscVal, word, e, inValue).Word?
    ensures var r := Scan(s, p, InEscVal, word, e, inValue);
            && r.next <= |s| && s[p..] == Yield(cs) + ([QUOTE] + s[r.next..])
            && r.word == word + Spells(cs) && r.escaped == e
    ensures forall i | 0 <= i < |cs| :: QuotedOk(cs[i])
    decreases |s| - p
  {
    hide Scan, NoNul, QuotedOk, SymText;
    if At(s, p) == QUOTE {
      cs := [];
      QuotedEnd(s, p, word, e, inValue);
      Front(s, p);
    } else {
      var c, q := QuotedStep(s, p, word, e, inValue);
      var cs' := QuotedSpelling(s, q, word + [c.b], e, inValue);
      cs := [c] + cs';
      YieldCons(c, cs', [QUOTE] + s[Scan(s, p, InEscVal, word, e, inValue).next..]);
      assert (word + [c.b]) + Spells(cs') == word + Spells(cs);
    }
  }

  /** The next byte of a bare word, or its end. */
  lemma {:induction false} BareStep(s: bytes, p: nat, word: bytes, e: bool, inValue: bool)
    returns (stop: bool, c: Sym, q: nat)
    requires p <= |s| && NoNul(s) && Scan(s, p, InVal, word, e, inValue).Word?
    ensures stop ==> Delimits(s[p..], inValue) &&
                     Scan(s, p, InVal, word, e, inValue) == Word(word, After(s, s[p..]), e)
    ensures !stop ==> p < q <= |s| && s[p..] == SymText(c) + s[q..] && BareOk(c, inValue) &&
                      Scan(s, p, InVal, word, e, inValue) == Scan(s, q, InVal, word + [c.b], e, inValue)
  {
    c, q := Sym(false, 0), p;
    var d := At(s, p);
    stop := p == |s| || (d != BACKSLASH && (IsSpace(d) || d == (if inValue then COMMA else EQ)));
    if !stop {
      if d == BACKSLASH {
        c, q := Sym(true, At(s, p + 1)), p + 2;
        Front(s, p);
        Front(s, p + 1);
      } else {
        c, q := Sym(false, d), p + 1;
        Front(s, p);
      }
    }
  }

  lemma {:induction false} BareSpelling(s: bytes, p: nat, word: bytes, e: bool, inValue: bool)
    returns (cs: seq<Sym>, q: nat)
    requires p <= |s| && NoNul(s) && Scan(s, p, InVal, word, e, inValue).Word?
    ensures q <= |s| && s[p..] == Yield(cs) + s[q..] && Delimits(s[q..], inValue)
    ensures Scan(s, p, InVal, word, e, inValue) == Word(word + Spells(cs), After(s, s[q..]), e)
    ensures forall i | 0 <= i < |cs| :: BareOk(cs[i], inValue)
    decreases |s| - p
  {
    hide Scan, NoNul, BareOk, SymText, Delimits, After;
    var stop, c, p' := BareStep(s, p, word, e, inValue);
    if stop {
      cs, q := [], p;
      assert word + Spells(cs) == word;
    } else {
      var cs';
      cs', q := BareSpelling(s, p', word + [c.b], e, inValue);
      cs := [c] + cs';
      YieldCons(c, cs', s[q..]);
      assert (word + [c.b]) + Spells(cs') == word + Spells(cs);
    }
  }

  /** What the waiting state can be looking at. */
  lemma {:induction false} WaitCases(s: bytes, p: nat, inValue: bool)
    requires p <= |s| && NoNul(s) && !Scan(s, p, WaitVal, [], false, inValue).ScanError?
    ensures p == |s| ==> Scan(s, p, WaitVal, [], false, inValue) == NoWord
    ensures p < |s| && IsSpace(At(s, p)) ==>
              Scan(s, p, WaitVal, [], false, inValue) == Scan(s, p + 1, WaitVal, [], false, inValue)
    ensures p < |s| && At(s, p) == BACKSLASH ==> p + 1 < |s| && At(s, p + 1) != 0
    ensures p < |s| && !IsSpace(At(s, p)) && At(s, p) != BACKSLASH && At(s, p) != QUOTE ==>
              FirstOk(Sym(false, At(s, p)), inValue)
  {
  }

  /** The spelling of a word, from the waiting state; no word only before the end. */
  lemma {:induction false} WordSpelling(s: bytes, p: nat, inValue: bool)
    returns (lead: bytes, w: Spelled, q: nat)
    requires p <= |s| && NoNul(s) && !Scan(s, p, WaitVal, [], false, inValue).ScanError?
    ensures var r := Scan(s, p, WaitVal, [], false, inValue);
            && q <= |s| && Spaces(lead)
            && (r.NoWord? ==> s[p..] == lead)
            && (r.Word? ==>
                  && s[p..] == lead + (WordText(w) + s[q..]) && WordOk(w, inValue)
                  && (w.Bare? ==> Delimits(s[q..], inValue))
                  && r == Word(WordBytes(w), if w.Quoted? then q else After(s, s[q..]), w.Quoted?))
    decreases |s| - p
  {
    hide Scan, NoNul, Delimits, FirstOk, BareOk, QuotedOk, Yield, Spells, WordOk, WordText, WordBytes, After;
    WaitCases(s, p, inValue);
    var d := At(s, p);
    lead, w, q := [], Quoted([]), p;
    if p < |s| {
      Front(s, p);
      if IsSpace(d) {
        var lead';
        lead', w, q := WordSpelling(s, p + 1, inValue);
        lead := [d] + lead';
      } else {
        w, q := WordHere(s, p, inValue);
        assert [] + (WordText(w) + s[q..]) == WordText(w) + s[q..];
      }
    }
  }

  lemma {:induction false} WordHere(s: bytes, p: nat, inValue: bool) returns (w: Spelled, q: nat)
    requires p < |s| && NoNul(s) && !Scan(s, p, WaitVal, [], false, inValue).ScanError? && !IsSpace(At(s, p))
    ensures q <= |s| && s[p..] == WordText(w) + s[q..] && WordOk(w, inValue)
    ensures w.Bare? ==> Delimits(s[q..], inValue)
    ensures Scan(s, p, WaitVal, [], false, inValue) ==
            Word(WordBytes(w), if w.Quoted? then q else After(s, s[q..]), w.Quoted?)
  {
    if At(s, p) == QUOTE {
      w, q := QuotedHere(s, p, inValue);
    } else {
      w, q := BareHere(s, p, inValue);
    }
  }

  lemma {:induction false} QuotedHere(s: bytes, p: nat, inValue: bool) returns (w: Spelled, q: nat)
    requires p < |s| && NoNul(s) && !Scan(s, p, WaitVal, [], false, inValue).ScanError? && At(s, p) == QUOTE
    ensures q <= |s| && s[p..] == WordText(w) + s[q..] && WordOk(w, inValue) && w.Quoted?
    ensures Scan(s, p, WaitVal, [], false, inValue) == Word(WordBytes(w), q, true)
  {
    hide Scan, NoNul, QuotedOk, Yield, Spells;
    WaitStep(s, p, inValue);
    Front(s, p);
    NoEarlyEnd(s, p + 1, InEscVal, [], true, inValue);
    var cs := QuotedSpelling(s, p + 1, [], true, inValue);
    w, q := Quoted(cs), Scan(s, p, WaitVal, [], false, inValue).next;
    assert [] + Spells(cs) == Spells(cs);
    assert [QUOTE] + (Yield(cs) + ([QUOTE] + s[q..])) == WordText(w) + s[q..];
  }

  lemma {:induction false} BareHere(s: bytes, p: nat, inValue: bool) returns (w: Spelled, q: nat)
    requires p < |s| && NoNul(s) && !Scan(s, p, WaitVal, [], false, inValue).ScanError?
    requires !IsSpace(At(s, p)) && At(s, p) != QUOTE
    ensures q <= |s| && s[p..] == WordText(w) + s[q..] && WordOk(w, inValue) && w.Bare?
    ensures Delimits(s[q..], inValue)
    ensures Scan(s, p, WaitVal, [], false, inValue) == Word(WordBytes(w), After(s, s[q..]), false)
  {
    hide Scan, NoNul, Delimits, BareOk, Yield, Spells, After;
    WaitCases(s, p, inValue);
    WaitStep(s, p, inValue);
    var d := At(s, p);
    Front(s, p);
    var first := if d == BACKSLASH then Sym(true, At(s, p + 1)) else Sym(false, d);
    var p' := if d == BACKSLASH then p + 2 else p + 1;
    if d == BACKSLASH {
      Front(s, p + 1);
    }
    assert s[p..] == SymText(first) + s[p'..];
    NoEarlyEnd(s, p', InVal, [first.b], false, inValue);
    var rest;
    rest, q := BareSpelling(s, p', [first.b], false, inValue);
    w := Bare(first, rest);
    assert SymText(first) + (Yield(rest) + s[q..]) == WordText(w) + s[q..];
  }

  /** Once a word has begun the scanner finds it or fails. */
  lemma {:induction false} NoEarlyEnd(s: bytes, p: nat, st: WordState, word: bytes, e: bool, inValue: bool)
    requires p <= |s| && !st.WaitVal? && NoNul(s)
    ensures !Scan(s, p, st, word, e, inValue).NoWord?
    decreases |s| - p
  {
    if p < |s| {
      var c := At(s, p);
      NoEarlyEnd(s, p + 1, InVal, word + [c], e, inValue);
      NoEarlyEnd(s, p + 1, InEscVal, word + [c], e, inValue);
      NoEarlyEnd(s, p + 1, WaitEscIn, word, e, inValue);
      NoEarlyEnd(s, p + 1, WaitEscEscIn, word, e, inValue);
    }
  }

  /** White space and the arrow after a key. */
  lemma {:induction false} ArrowSpelling(s: bytes, p: nat, done: seq<Pair>, key: bytes) returns (mid: bytes, q: nat)
    requires p <= |s| && NoNul(s) && Parse(s, p, WEq, done, key).Pairs?
    ensures p < q <= |s| && Spaces(mid) && s[p..] == mid + ([EQ, GT] + s[q..])
    ensures Parse(s, p, WEq, done, key) == Parse(s, q, WVal, done, key)
    decreases |s| - p
  {
    hide Scan;
    if At(s, p) == EQ {
      mid, q := [], p + 2;
      Front(s, p);
      Front(s, p + 1);
    } else {
      var mid';
      mid', q := ArrowSpelling(s, p + 1, done, key);
      mid := [At(s, p)] + mid';
      Front(s, p);
    }
  }

  /** White space and the delimiter after a value. */
  lemma {:induction false} DelimiterSpelling(s: bytes, p: nat, done: seq<Pair>) returns (trail: bytes, q: nat)
    requires p <= |s| && NoNul(s) && Parse(s, p, WDel, done, []).Pairs?
    ensures p <= q <= |s| && Spaces(trail) && s[p..] == trail + s[q..]
    ensures q == |s| ==> Parse(s, p, WDel, done, []) == Pairs(done)
    ensures q < |s| ==> s[q] == COMMA && Parse(s, p, WDel, done, []) == Parse(s, q + 1, WKey, done, [])
    decreases |s| - p
  {
    hide Scan;
    if p == |s| || At(s, p) == COMMA {
      trail, q := [], p;
    } else {
      Front(s, p);
      var trail';
      trail', q := DelimiterSpelling(s, p + 1, done);
      trail := [At(s, p)] + trail';
    }
  }

  /** The parser may resume right after a word, whether or not a space was taken along. */
  lemma {:induction false} Resume(s: bytes, q: nat, next: nat, done: seq<Pair>, key: bytes)
    requires q <= |s| && (next == q || next == After(s, s[q..]))
    ensures next <= |s| && Parse(s, next, WEq, done, key) == Parse(s, q, WEq, done, key)
    ensures Parse(s, next, WDel, done, []) == Parse(s, q, WDel, done, [])
  {
    hide Parse, After;
    assert |s[q..]| == |s| - q;
    AfterWord(s, s[q..], done, key);
  }

  /** A key with its arrow. */
  lemma {:induction false} KeySpelling(s: bytes, p: nat, done: seq<Pair>)
    returns (lead: bytes, key: Spelled, mid: bytes, q: nat)
    requires p <= |s| && NoNul(s) && Parse(s, p, WKey, done, []).Pairs?
    requires Scan(s, p, WaitVal, [], false, false).Word?
    ensures p < q <= |s| && Spaces(lead) && Spaces(mid) && WordOk(key, false) && |WordBytes(key)| <= WORD_MAX
    ensures s[p..] == lead + (WordText(key) + (mid + ([EQ, GT] + s[q..])))
    ensures |done| < PAIRS_MAX && Parse(s, p, WKey, done, []) == Parse(s, q, WVal, done, WordBytes(key))
  {
    hide Scan, Parse, NoNul, Spaces, WordOk, WordText, WordBytes, Delimits, After;
    var k;
    lead, key, k := WordSpelling(s, p, false);
    WKeyStep(s, p, done);
    Resume(s, k, Scan(s, p, WaitVal, [], false, false).next, done, WordBytes(key));
    mid, q := ArrowSpelling(s, k, done, WordBytes(key));
    assert |s[q..]| < |s[p..]|;
  }

  /** A value with the white space after it. */
  lemma {:induction false} ValueSpelling(s: bytes, p: nat, done: seq<Pair>, key: bytes)
    returns (gap: bytes, val: Spelled, trail: bytes, q: nat)
    requires p <= |s| && NoNul(s) && Parse(s, p, WVal, done, key).Pairs?
    ensures q <= |s| && Spaces(gap) && Spaces(trail) && WordOk(val, true) && |WordBytes(val)| <= WORD_MAX
    ensures p <= q && s[p..] == gap + (WordText(val) + (trail + s[q..]))
    ensures var all := done + [Pair(key, ValueOf(WordBytes(val), val.Quoted?))];
            && (q == |s| ==> Parse(s, p, WVal, done, key) == Pairs(all))
            && (q < |s| ==> s[q] == COMMA && Parse(s, p, WVal, done, key) == Parse(s, q + 1, WKey, all, []))
  {
    hide Scan, Parse, NoNul, Spaces, WordOk, WordText, WordBytes, Delimits, After, ValueOf;
    WValStep(s, p, done, key);
    var k;
    gap, val, k := WordSpelling(s, p, true);
    var all := done + [Pair(key, ValueOf(WordBytes(val), val.Quoted?))];
    Resume(s, k, Scan(s, p, WaitVal, [], false, true).next, all, []);
    trail, q := DelimiterSpelling(s, k, all);
    assert |s[q..]| <= |s[p..]|;
  }

  /** Every accepted text is a text of the grammar, with the meaning the parser gave it. */
  lemma {:induction false} ReadIsGrammar(s: bytes, p: nat, done: seq<Pair>) returns (d: Doc)
    requires p <= |s| && NoNul(s) && Parse(s, p, WKey, done, []).Pairs? && |done| <= PAIRS_MAX
    ensures DocOk(d) && s[p..] == DocText(d) && |done| + |DocMeaning(d)| <= PAIRS_MAX
    ensures Parse(s, p, WKey, done, []) == Pairs(done + DocMeaning(d))
    decreases |s| - p
  {
    hide Scan, Parse, NoNul, Spaces, WordOk, WordText, WordBytes, Delimits, After, SpellsNull, IsNull;
    WKeyStep(s, p, done);
    if Scan(s, p, WaitVal, [], false, false).NoWord? {
      var lead, _, _ := WordSpelling(s, p, false);
      d := End(lead);
      assert done + [] == done;
    } else {
      var lead, key, mid, q := KeySpelling(s, p, done);
      var gap, val, trail, k := ValueSpelling(s, q, done, WordBytes(key));
      var sp := SpelledPair(lead, key, mid, gap, val, trail);
      NullSpelled(WordBytes(val));
      var all := done + [PairMeaning(sp)];
      assert s[p..] == PairText(sp, s[k..]);
      if k == |s| {
        d := Last(sp);
        assert s[k..] == [];
      } else {
        var rest := ReadIsGrammar(s, k + 1, all);
        d := More(sp, rest);
        assert s[k..] == [COMMA] + s[k + 1..];
        assert all + DocMeaning(rest) == done + DocMeaning(d);
      }
    }
  }

  /** A spelling of a list of pairs. */
  ghost predicate SpellingOf(d: Doc, s: bytes, ps: seq<Pair>) {
    DocOk(d) && DocText(d) == s && DocMeaning(d) == ps
  }

  /** The accepted language and its meaning are exactly the grammar's, for the lists of at most
      2^24 pairs. */
  lemma {:induction false} LanguageIsGrammar(s: bytes, ps: seq<Pair>)
    requires NoNul(s)
    ensures Parse(s, 0, WKey, [], []) == Pairs(ps) <==> |ps| <= PAIRS_MAX && exists d :: SpellingOf(d, s, ps)
  {
    hide Parse, NoNul, DocOk, DocText, DocMeaning;
    assert s[0..] == s;
    if Parse(s, 0, WKey, [], []) == Pairs(ps) {
      var d := ReadIsGrammar(s, 0, []);
      assert [] + DocMeaning(d) == DocMeaning(d);
      assert SpellingOf(d, s, ps);
    }
    if |ps| <= PAIRS_MAX && exists d :: SpellingOf(d, s, ps) {
      var d :| SpellingOf(d, s, ps);
      GrammarIsRead(s, 0, d, []);
      assert [] + DocMeaning(d) == DocMeaning(d);
    }
  }
}
