/**
 The language of hstore texts as a grammar, independent of the scanner: words are bare or
 quoted, any byte can be escaped, pairs are joined by commas, white space may stand
 between all parts. The parser of contrib/hstore/hstore_io.c reads every text of this
 language as the grammar means it.
 */
module HstoreGrammar {
  import opened Wrappers
  import opened ByteOrder
  import opened HstoreFormat
  import opened HstoreText

  // ----- words -----

  /** One spelled byte, with or without a backslash. */
  datatype Sym = Sym(esc: bool, b: byte)

  datatype Spelled = Quoted(cs: seq<Sym>) | Bare(first: Sym, rest: seq<Sym>)

  function SymText(c: Sym): bytes {
    if c.esc then [BACKSLASH, c.b] else [c.b]
  }

  function Yield(cs: seq<Sym>): bytes {
    if cs == [] then [] else SymText(cs[0]) + Yield(cs[1..])
  }

  function Spells(cs: seq<Sym>): (w: bytes)
    ensures |w| == |cs|
  {
    if cs == [] then [] else [cs[0].b] + Spells(cs[1..])
  }

  /** White space: blank, tab, line feed, vertical tab, form feed, carriage return. */
  predicate Blank(c: byte) {
    c in {32, 9, 10, 11, 12, 13}
  }

  predicate QuotedOk(c: Sym) {
    c.b != 0 && (c.esc || (c.b != QUOTE && c.b != BACKSLASH))
  }

  /** A bare value may contain an equals sign and a bare key a comma. */
  predicate BareOk(c: Sym, inValue: bool) {
    c.b != 0 && (c.esc || (c.b != BACKSLASH && !Blank(c.b) && c.b != (if inValue then COMMA else EQ)))
  }

  predicate FirstOk(c: Sym, inValue: bool) {
    c.b != 0 && (c.esc || (c.b != QUOTE && c.b != BACKSLASH && !Blank(c.b) && (c.b == EQ ==> inValue)))
  }

  ghost predicate WordOk(w: Spelled, inValue: bool) {
    match w
    case Quoted(cs) => forall i | 0 <= i < |cs| :: QuotedOk(cs[i])
    case Bare(first, rest) => FirstOk(first, inValue) && forall i | 0 <= i < |rest| :: BareOk(rest[i], inValue)
  }

  function WordText(w: Spelled): bytes {
    match w
    case Quoted(cs) => [QUOTE] + Yield(cs) + [QUOTE]
    case Bare(first, rest) => SymText(first) + Yield(rest)
  }

  function WordBytes(w: Spelled): bytes {
    match w
    case Quoted(cs) => Spells(cs)
    case Bare(first, rest) => [first.b] + Spells(rest)
  }

  predicate Spaces(s: bytes) {
    forall i | 0 <= i < |s| :: Blank(s[i])
  }

  /** What may follow a bare word. */
  predicate Delimits(tail: bytes, inValue: bool) {
    tail == [] || Blank(tail[0]) || tail[0] == (if inValue then COMMA else EQ)
  }

  // ----- texts -----

  datatype SpelledPair =
    SpelledPair(lead: bytes, key: Spelled, mid: bytes, gap: bytes, val: Spelled, trail: bytes)

  /** A text from a key position on: nothing more, a last pair, or a pair and a comma. */
  datatype Doc = End(spaces: bytes) | Last(pair: SpelledPair) | More(pair: SpelledPair, rest: Doc)

  ghost predicate PairOk(p: SpelledPair) {
    && Spaces(p.lead) && Spaces(p.mid) && Spaces(p.gap) && Spaces(p.trail)
    && WordOk(p.key, false) && WordOk(p.val, true)
    && |WordBytes(p.key)| <= WORD_MAX && |WordBytes(p.val)| <= WORD_MAX
  }

  function PairText(p: SpelledPair, tail: bytes): bytes {
    p.lead + (WordText(p.key) + (p.mid + ([EQ, GT] + (p.gap + (WordText(p.val) + (p.trail + tail))))))
  }

  /** The spellings of the SQL null. */
  const NULLS: set<string> := {
    "NULL", "NULl", "NUlL", "NUll", "NuLL", "NuLl", "NulL", "Null",
    "nULL", "nULl", "nUlL", "nUll", "nuLL", "nuLl", "nulL", "null"}

  function Ascii(s: string): bytes
    requires |s| == 4 && forall i | 0 <= i < 4 :: s[i] < 128 as char
  {
    [s[0] as int, s[1] as int, s[2] as int, s[3] as int]
  }

  ghost predicate IsNull(w: bytes) {
    exists s | s in NULLS :: w == Ascii(s)
  }

  ghost function PairMeaning(p: SpelledPair): Pair {
    Pair(WordBytes(p.key), if !p.val.Quoted? && IsNull(WordBytes(p.val)) then None else Some(WordBytes(p.val)))
  }

  lemma {:induction false} NullSpelled(w: bytes)
    ensures IsNull(w) <==> SpellsNull(w)
  {
    if SpellsNull(w) {
      var s := [w[0] as char, w[1] as char, w[2] as char, w[3] as char];
      assert s in NULLS;
      assert w == Ascii(s);
    }
  }

  ghost predicate DocOk(d: Doc) {
    match d
    case End(spaces) => Spaces(spaces)
    case Last(p) => PairOk(p)
    case More(p, rest) => PairOk(p) && DocOk(rest)
  }

  function DocText(d: Doc): bytes {
    match d
    case End(spaces) => spaces
    case Last(p) => PairText(p, [])
    case More(p, rest) => PairText(p, [COMMA] + DocText(rest))
  }

  ghost function DocMeaning(d: Doc): seq<Pair> {
    match d
    case End(_) => []
    case Last(p) => [PairMeaning(p)]
    case More(p, rest) => [PairMeaning(p)] + DocMeaning(rest)
  }

  // ----- positions -----

  /** The text from p on. */
  predicate Rest(s: bytes, p: nat, t: bytes) {
    p <= |s| && s[p..] == t
  }

  lemma {:induction false} Step(s: bytes, p: nat, c: byte, t: bytes)
    requires Rest(s, p, [c] + t)
    ensures p < |s| && s[p] == c && At(s, p) == c && Rest(s, p + 1, t) && p == |s| - |t| - 1
  {
    assert s[p..][0] == c;
    assert s[p + 1..] == s[p..][1..];
  }

  lemma {:induction false} YieldUnfold(cs: seq<Sym>, tail: bytes)
    requires cs != []
    ensures Yield(cs) + tail == SymText(cs[0]) + (Yield(cs[1..]) + tail)
    ensures Spells(cs) == [cs[0].b] + Spells(cs[1..])
  {
  }

  // ----- every spelling is read as it means -----

  /** An escaped byte, or a plain one, as the scanner sees it. */
  lemma {:induction false} StepSym(s: bytes, p: nat, c: Sym, t: bytes)
    requires Rest(s, p, SymText(c) + t)
    ensures c.esc ==> p + 1 < |s| && At(s, p) == BACKSLASH && At(s, p + 1) == c.b && Rest(s, p + 2, t)
    ensures !c.esc ==> p < |s| && At(s, p) == c.b && Rest(s, p + 1, t)
  {
    if c.esc {
      assert SymText(c) + t == [BACKSLASH] + ([c.b] + t);
      Step(s, p, BACKSLASH, [c.b] + t);
      Step(s, p + 1, c.b, t);
    } else {
      Step(s, p, c.b, t);
    }
  }

  lemma {:induction false} ScanQuoted(s: bytes, p: nat, cs: seq<Sym>, tail: bytes, word: bytes, inValue: bool)
    requires Rest(s, p, Yield(cs) + ([QUOTE] + tail))
    requires forall i | 0 <= i < |cs| :: QuotedOk(cs[i])
    ensures Scan(s, p, InEscVal, word, true, inValue) == Word(word + Spells(cs), |s| - |tail|, true)
    decreases |cs|
  {
    if cs == [] {
      assert Yield(cs) + ([QUOTE] + tail) == [QUOTE] + tail;
      Step(s, p, QUOTE, tail);
      assert word + Spells(cs) == word;
    } else {
      hide Rest, Yield, Spells;
      var c := cs[0];
      YieldUnfold(cs, [QUOTE] + tail);
      StepSym(s, p, c, Yield(cs[1..]) + ([QUOTE] + tail));
      ScanQuoted(s, if c.esc then p + 2 else p + 1, cs[1..], tail, word + [c.b], inValue);
      assert (word + [c.b]) + Spells(cs[1..]) == word + Spells(cs);
    }
  }

  /** Where the scanner stops after a bare word: a space is taken along. */
  function After(s: bytes, tail: bytes): int {
    |s| - |tail| + (if tail != [] && Blank(tail[0]) then 1 else 0)
  }

  lemma {:induction false} ScanBare(s: bytes, p: nat, cs: seq<Sym>, tail: bytes, word: bytes, inValue: bool)
    requires Rest(s, p, Yield(cs) + tail) && Delimits(tail, inValue)
    requires forall i | 0 <= i < |cs| :: BareOk(cs[i], inValue)
    ensures var r := Scan(s, p, InVal, word, false, inValue);
            r.Word? && r.word == word + Spells(cs) && r.next == After(s, tail) && !r.escaped
    decreases |cs|
  {
    if cs == [] {
      hide Scan, Delimits;
      assert Yield(cs) + tail == tail;
      assert word + Spells(cs) == word;
      BareEnds(s, p, tail, word, inValue);
    } else {
      hide Rest, Yield, Spells, Delimits, After;
      var c := cs[0];
      YieldUnfold(cs, tail);
      StepSym(s, p, c, Yield(cs[1..]) + tail);
      ScanBare(s, if c.esc then p + 2 else p + 1, cs[1..], tail, word + [c.b], inValue);
      assert (word + [c.b]) + Spells(cs[1..]) == word + Spells(cs);
    }
  }

  lemma {:induction false} BareEnds(s: bytes, p: nat, tail: bytes, word: bytes, inValue: bool)
    requires Rest(s, p, tail) && Delimits(tail, inValue)
    ensures Scan(s, p, InVal, word, false, inValue) == Word(word, After(s, tail), false)
  {
    if tail != [] {
      assert tail == [tail[0]] + tail[1..];
      Step(s, p, tail[0], tail[1..]);
    }
  }

  lemma {:induction false} ScanSpaces(s: bytes, p: nat, sp: bytes, tail: bytes, inValue: bool)
    requires Rest(s, p, sp + tail) && Spaces(sp)
    ensures |tail| <= |s| && Rest(s, |s| - |tail|, tail)
    ensures Scan(s, p, WaitVal, [], false, inValue) == Scan(s, |s| - |tail|, WaitVal, [], false, inValue)
    decreases |sp|
  {
    if sp == [] {
      assert sp + tail == tail;
    } else {
      assert sp + tail == [sp[0]] + (sp[1..] + tail);
      Step(s, p, sp[0], sp[1..] + tail);
      ScanSpaces(s, p + 1, sp[1..], tail, inValue);
    }
  }

  /** One step of the waiting state at the start of a quoted or a bare word. */
  lemma {:induction false} WaitStep(s: bytes, p: nat, inValue: bool)
    requires p < |s|
    ensures At(s, p) == QUOTE ==>
              Scan(s, p, WaitVal, [], false, inValue) == Scan(s, p + 1, InEscVal, [], true, inValue)
    ensures FirstOk(Sym(false, At(s, p)), inValue) ==>
              Scan(s, p, WaitVal, [], false, inValue) == Scan(s, p + 1, InVal, [At(s, p)], false, inValue)
    ensures At(s, p) == BACKSLASH && p + 1 < |s| && At(s, p + 1) != 0 ==>
              Scan(s, p, WaitVal, [], false, inValue) == Scan(s, p + 2, InVal, [At(s, p + 1)], false, inValue)
  {
    var none: bytes := [];
    assert none + [At(s, p)] == [At(s, p)] && none + [At(s, p + 1)] == [At(s, p + 1)];
  }

  lemma {:induction false} ScanQuotedWord(s: bytes, p: nat, cs: seq<Sym>, tail: bytes, inValue: bool)
    requires Rest(s, p, WordText(Quoted(cs)) + tail) && forall i | 0 <= i < |cs| :: QuotedOk(cs[i])
    ensures Scan(s, p, WaitVal, [], false, inValue) == Word(Spells(cs), |s| - |tail|, true)
  {
    hide Scan, Rest, Yield, Spells, QuotedOk;
    assert WordText(Quoted(cs)) + tail == [QUOTE] + (Yield(cs) + ([QUOTE] + tail));
    Step(s, p, QUOTE, Yield(cs) + ([QUOTE] + tail));
    WaitStep(s, p, inValue);
    ScanQuoted(s, p + 1, cs, tail, [], inValue);
    assert [] + Spells(cs) == Spells(cs);
  }

  lemma {:induction false} ScanBareWord(s: bytes, p: nat, w: Spelled, tail: bytes, inValue: bool)
    requires w.Bare? && Rest(s, p, WordText(w) + tail) && WordOk(w, inValue) && Delimits(tail, inValue)
    ensures Scan(s, p, WaitVal, [], false, inValue) == Word(WordBytes(w), After(s, tail), false)
  {
    hide Scan, Rest, Yield, Spells, Delimits, BareOk, SymText;
    var first, rest := w.first, w.rest;
    assert WordText(w) + tail == SymText(first) + (Yield(rest) + tail);
    StepSym(s, p, first, Yield(rest) + tail);
    WaitStep(s, p, inValue);
    assert !first.esc ==> first == Sym(false, At(s, p));
    ScanBare(s, if first.esc then p + 2 else p + 1, rest, tail, [first.b], inValue);
  }

  /** A word with white space in front, read from the waiting state. */
  lemma {:induction false} ScanWord(s: bytes, p: nat, lead: bytes, w: Spelled, tail: bytes, inValue: bool)
    requires Rest(s, p, lead + (WordText(w) + tail)) && Spaces(lead) && WordOk(w, inValue)
    requires w.Bare? ==> Delimits(tail, inValue)
    ensures |tail| <= |s| && Rest(s, |s| - |tail|, tail)
    ensures var r := Scan(s, p, WaitVal, [], false, inValue);
            && r.Word? && r.word == WordBytes(w) && r.escaped == w.Quoted?
            && r.next == if w.Quoted? then |s| - |tail| else After(s, tail)
  {
    hide Scan, Rest, WordText, Spaces, Delimits;
    ScanSpaces(s, p, lead, WordText(w) + tail, inValue);
    var q := |s| - |WordText(w) + tail|;
    RestTail(s, q, WordText(w), tail);
    if w.Quoted? {
      ScanQuotedWord(s, q, w.cs, tail, inValue);
    } else {
      ScanBareWord(s, q, w, tail, inValue);
    }
  }

  lemma {:induction false} RestTail(s: bytes, p: nat, t: bytes, tail: bytes)
    requires Rest(s, p, t + tail)
    ensures |tail| <= |s| && Rest(s, |s| - |tail|, tail) && p + |t| == |s| - |tail|
  {
    assert |s[p..]| == |t| + |tail|;
    assert s[p + |t|..] == s[p..][|t|..];
  }

  lemma {:induction false} SkipToEq(s: bytes, p: nat, sp: bytes, tail: bytes, done: seq<Pair>, key: bytes)
    requires Rest(s, p, sp + tail) && Spaces(sp)
    ensures |tail| <= |s| && Rest(s, |s| - |tail|, tail)
    ensures Parse(s, p, WEq, done, key) == Parse(s, |s| - |tail|, WEq, done, key)
    decreases |sp|
  {
    if sp == [] {
      assert sp + tail == tail;
    } else {
      assert sp + tail == [sp[0]] + (sp[1..] + tail);
      Step(s, p, sp[0], sp[1..] + tail);
      SkipToEq(s, p + 1, sp[1..], tail, done, key);
    }
  }

  lemma {:induction false} SkipToDel(s: bytes, p: nat, sp: bytes, tail: bytes, done: seq<Pair>)
    requires Rest(s, p, sp + tail) && Spaces(sp)
    ensures |tail| <= |s| && Rest(s, |s| - |tail|, tail)
    ensures Parse(s, p, WDel, done, []) == Parse(s, |s| - |tail|, WDel, done, [])
    decreases |sp|
  {
    if sp == [] {
      assert sp + tail == tail;
    } else {
      assert sp + tail == [sp[0]] + (sp[1..] + tail);
      Step(s, p, sp[0], sp[1..] + tail);
      SkipToDel(s, p + 1, sp[1..], tail, done);
    }
  }

  /** The space a bare word took along does not matter. */
  lemma {:induction false} AfterWord(s: bytes, tail: bytes, done: seq<Pair>, key: bytes)
    requires |tail| <= |s| && Rest(s, |s| - |tail|, tail)
    ensures After(s, tail) <= |s|
    ensures Parse(s, After(s, tail), WEq, done, key) == Parse(s, |s| - |tail|, WEq, done, key)
    ensures Parse(s, After(s, tail), WDel, done, []) == Parse(s, |s| - |tail|, WDel, done, [])
  {
    hide Scan;
    if tail != [] && Blank(tail[0]) {
      assert tail == [tail[0]] + tail[1..];
      Step(s, |s| - |tail|, tail[0], tail[1..]);
    }
  }

  lemma {:induction false} WKeyStep(s: bytes, p: nat, done: seq<Pair>)
    requires p <= |s|
    ensures var r := Scan(s, p, WaitVal, [], false, false);
            Parse(s, p, WKey, done, []) ==
            if r.NoWord? then Pairs(done)
            else if r.Word? && |r.word| <= WORD_MAX && |done| < PAIRS_MAX then Parse(s, r.next, WEq, done, r.word)
            else ParseError
  {
    hide Scan;
  }

  lemma {:induction false} WValStep(s: bytes, p: nat, done: seq<Pair>, key: bytes)
    requires p <= |s|
    ensures var r := Scan(s, p, WaitVal, [], false, true);
            Parse(s, p, WVal, done, key) ==
            if r.Word? && |r.word| <= WORD_MAX
            then Parse(s, r.next, WDel, done + [Pair(key, ValueOf(r.word, r.escaped))], [])
            else ParseError
  {
    hide Scan;
  }

  /** The arrow. */
  lemma {:induction false} ArrowStep(s: bytes, p: nat, tail: bytes, done: seq<Pair>, key: bytes)
    requires Rest(s, p, [EQ, GT] + tail)
    ensures p + 2 <= |s| && Rest(s, p + 2, tail)
    ensures Parse(s, p, WEq, done, key) == Parse(s, p + 2, WVal, done, key)
  {
    hide Scan;
    assert [EQ, GT] + tail == [EQ] + ([GT] + tail);
    Step(s, p, EQ, [GT] + tail);
    Step(s, p + 1, GT, tail);
  }

  lemma {:induction false} SpacesDelimit(sp: bytes, tail: bytes, inValue: bool)
    requires Spaces(sp) && Delimits(tail, inValue)
    ensures Delimits(sp + tail, inValue)
  {
    if sp == [] {
      assert sp + tail == tail;
    }
  }

  /** From a key position to the value position. */
  lemma {:induction false} ReadKey(s: bytes, p: nat, lead: bytes, key: Spelled, mid: bytes, tail: bytes, done: seq<Pair>)
    requires Rest(s, p, lead + (WordText(key) + (mid + ([EQ, GT] + tail))))
    requires Spaces(lead) && Spaces(mid) && WordOk(key, false) && |WordBytes(key)| <= WORD_MAX
    ensures |tail| <= |s| && Rest(s, |s| - |tail|, tail)
    ensures Parse(s, p, WKey, done, []) ==
            if |done| >= PAIRS_MAX then ParseError else Parse(s, |s| - |tail|, WVal, done, WordBytes(key))
  {
    hide Scan, Parse, Rest, WordText, WordBytes, Spaces, WordOk, After;
    var arrow := [EQ, GT] + tail;
    SpacesDelimit(mid, arrow, false);
    ScanWord(s, p, lead, key, mid + arrow, false);
    AfterWord(s, mid + arrow, done, WordBytes(key));
    RestBound(s, p, lead + (WordText(key) + (mid + arrow)));
    WKeyStep(s, p, done);
    SkipToEq(s, |s| - |mid + arrow|, mid, arrow, done, WordBytes(key));
    ArrowStep(s, |s| - |arrow|, tail, done, WordBytes(key));
  }

  lemma {:induction false} RestBound(s: bytes, p: nat, t: bytes)
    requires Rest(s, p, t)
    ensures p <= |s| && p == |s| - |t|
  {
  }

  /** From a value position to the delimiter position. */
  lemma {:induction false} ReadValue(s: bytes, p: nat, gap: bytes, val: Spelled, trail: bytes, tail: bytes,
                                     done: seq<Pair>, key: bytes)
    requires Rest(s, p, gap + (WordText(val) + (trail + tail)))
    requires Spaces(gap) && Spaces(trail) && WordOk(val, true) && |WordBytes(val)| <= WORD_MAX && Delimits(tail, true)
    ensures |tail| <= |s| && Rest(s, |s| - |tail|, tail)
    ensures Parse(s, p, WVal, done, key) ==
            Parse(s, |s| - |tail|, WDel, done + [Pair(key, ValueOf(WordBytes(val), val.Quoted?))], [])
  {
    hide Scan, Parse, Rest, WordText, WordBytes, Spaces, WordOk, After, ValueOf, Delimits;
    SpacesDelimit(trail, tail, true);
    ScanWord(s, p, gap, val, trail + tail, true);
    var done' := done + [Pair(key, ValueOf(WordBytes(val), val.Quoted?))];
    AfterWord(s, trail + tail, done', []);
    RestBound(s, p, gap + (WordText(val) + (trail + tail)));
    WValStep(s, p, done, key);
    SkipToDel(s, |s| - |trail + tail|, trail, tail, done');
  }

  lemma {:induction false} ReadPair(s: bytes, p: nat, sp: SpelledPair, tail: bytes, done: seq<Pair>)
    requires Rest(s, p, PairText(sp, tail)) && PairOk(sp) && Delimits(tail, true)
    ensures |tail| <= |s| && Rest(s, |s| - |tail|, tail)
    ensures Parse(s, p, WKey, done, []) ==
            if |done| >= PAIRS_MAX then ParseError else Parse(s, |s| - |tail|, WDel, done + [PairMeaning(sp)], [])
  {
    hide Scan, Parse, Rest, WordText, WordBytes, Spaces, WordOk, SpellsNull, IsNull, Delimits;
    NullSpelled(WordBytes(sp.val));
    var value := sp.gap + (WordText(sp.val) + (sp.trail + tail));
    ReadKey(s, p, sp.lead, sp.key, sp.mid, value, done);
    ReadValue(s, |s| - |value|, sp.gap, sp.val, sp.trail, tail, done, WordBytes(sp.key));
  }

  /** Every text of the grammar parses to its meaning, up to the limit on pairs. */
  lemma {:induction false} GrammarIsRead(s: bytes, p: nat, d: Doc, done: seq<Pair>)
    requires Rest(s, p, DocText(d)) && DocOk(d) && |done| <= PAIRS_MAX
    ensures p <= |s|
    ensures Parse(s, p, WKey, done, []) ==
            if |done| + |DocMeaning(d)| > PAIRS_MAX then ParseError else Pairs(done + DocMeaning(d))
    decreases d
  {
    hide Scan, Parse, Rest, PairText, PairOk, PairMeaning, Spaces, Delimits;
    RestBound(s, p, DocText(d));
    match d {
      case End(spaces) =>
        EndIsRead(s, p, spaces, done);
      case Last(sp) =>
        NothingDelimits();
        ReadPair(s, p, sp, [], done);
        AtEndDel(s, done + [PairMeaning(sp)]);
      case More(sp, rest) =>
        var tail := [COMMA] + DocText(rest);
        CommaDelimits(DocText(rest));
        ReadPair(s, p, sp, tail, done);
        if |done| < PAIRS_MAX {
          var all := done + [PairMeaning(sp)];
          CommaStep(s, |s| - |tail|, DocText(rest), all);
          GrammarIsRead(s, |s| - |tail| + 1, rest, all);
          assert all + DocMeaning(rest) == done + DocMeaning(d);
        }
    }
  }

  lemma {:induction false} NothingDelimits()
    ensures Delimits([], true)
  {
  }

  lemma {:induction false} CommaDelimits(t: bytes)
    ensures Delimits([COMMA] + t, true)
  {
  }

  /** Only white space is left. */
  lemma {:induction false} EndIsRead(s: bytes, p: nat, spaces: bytes, done: seq<Pair>)
    requires Rest(s, p, spaces) && Spaces(spaces)
    ensures p <= |s| && Parse(s, p, WKey, done, []) == Pairs(done + [])
  {
    hide Scan, Spaces;
    assert spaces + [] == spaces;
    ScanSpaces(s, p, spaces, [], false);
    AtEnd(s);
    WKeyStep(s, p, done);
    assert done + [] == done;
  }

  lemma {:induction false} AtEnd(s: bytes)
    ensures Scan(s, |s|, WaitVal, [], false, false) == NoWord
  {
  }

  lemma {:induction false} AtEndDel(s: bytes, done: seq<Pair>)
    ensures Parse(s, |s|, WDel, done, []) == Pairs(done)
  {
    hide Scan;
  }

  lemma {:induction false} CommaStep(s: bytes, p: nat, t: bytes, done: seq<Pair>)
    requires Rest(s, p, [COMMA] + t)
    ensures p + 1 <= |s| && Rest(s, p + 1, t) && Parse(s, p, WDel, done, []) == Parse(s, p + 1, WKey, done, [])
  {
    hide Scan;
    Step(s, p, COMMA, t);
  }

  /** A single pair reads as a null value exactly when the value is not quoted and is one of the
      sixteen spellings; otherwise it reads as its bytes. */
  lemma {:induction false} NullIff(key: Spelled, val: Spelled)
    requires WordOk(key, false) && WordOk(val, true)
    requires |WordBytes(key)| <= WORD_MAX && |WordBytes(val)| <= WORD_MAX
    ensures var r := Parse(WordText(key) + [EQ, GT] + WordText(val), 0, WKey, [], []);
            && r.Pairs? && |r.pairs| == 1 && r.pairs[0].key == WordBytes(key)
            && (r.pairs[0].val.None? <==> val.Bare? && IsNull(WordBytes(val)))
            && (r.pairs[0].val.Some? ==> r.pairs[0].val.value == WordBytes(val))
  {
    hide Scan, Parse, WordText, WordBytes, WordOk, IsNull;
    var p := SpelledPair([], key, [], [], val, []);
    var text := WordText(key) + [EQ, GT] + WordText(val);
    assert PairText(p, []) == text;
    assert text[0..] == text;
    GrammarIsRead(text, 0, Last(p), []);
    assert [] + DocMeaning(Last(p)) == [PairMeaning(p)];
  }
}
