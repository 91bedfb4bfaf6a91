/**
 Which texts are boolean queries, down to the characters (contrib/intarray/_int_bool.c,
 gettoken): numbers are decimal, or octal after a leading zero, tokens may be separated by
 blanks, and the text ends at its end or at a NUL. Nothing here follows the lexer's steps.
 */
module IntQueryText {
  import opened IntQuery
  import opened IntQueryLex
  import opened IntQueryGrammar
  import opened IntQueryInput

  // ----- numbers -----

  /** The digits of n in a base up to ten, without leading zeros; none for zero. */
  function Numeral(n: nat, base: nat): (s: string)
    requires 2 <= base <= 10
    ensures forall k | 0 <= k < |s| :: IsDigit(s[k]) && DigitVal(s[k]) < base
  {
    if n == 0 then [] else Numeral(n / base, base) + [(('0' as int) + n % base) as char]
  }

  /** One or more zeros, the octal digits of n, and digits that end what is read. */
  ghost predicate OctalWord(digits: string, n: nat, zeros: nat, tail: string) {
    && zeros > 0 && digits == Copies(zeros, '0') + Numeral(n, 8) + tail
    && (forall k | 0 <= k < |tail| :: '0' <= tail[k] <= '9') && (tail != [] ==> tail[0] in {'8', '9'})
  }

  /** The digits stand for n: nothing after a sign, a decimal number, or an octal one. */
  ghost predicate Stands(digits: string, n: nat, neg: bool) {
    || (digits == [] && neg && n == 0)
    || (digits == Numeral(n, 10) && n > 0)
    || exists zeros, tail :: OctalWord(digits, n, zeros, tail)
  }

  function Signed(neg: bool, digits: string): string {
    if neg then "-" + digits else digits
  }

  /** The word is a number of at most 15 characters with value v. */
  ghost predicate NumberWord(w: string, v: int32) {
    |w| <= 15 && exists neg, digits, n :: NumberParts(w, v, neg, digits, n)
  }

  ghost predicate NumberParts(w: string, v: int32, neg: bool, digits: string, n: nat) {
    w == Signed(neg, digits) && Stands(digits, n, neg) && v == (if neg then -(n as int) else n)
  }

  // ----- texts -----

  /** The word spells the token. */
  ghost predicate Word(w: string, tok: Token) {
    match tok
    case TVal(v) => NumberWord(w, v)
    case TOpr(c) => w == [c]
    case TOpen => w == "("
    case TClose => w == ")"
    case _ => false
  }

  /** The text is the words of the tokens, each after any number of blanks, and then blanks up
      to its end or to a NUL. */
  ghost predicate Written(text: string, ts: seq<Token>)
    decreases |ts|
  {
    if ts == [] then exists k, rest :: Leads(text, k, [], rest) && Ends(rest)
    else exists k, w, rest :: Leads(text, k, w, rest) && Word(w, ts[0]) && Written(rest, ts[1..])
  }

  predicate Ends(rest: string) {
    rest == [] || rest[0] == '\0'
  }

  predicate Leads(text: string, k: nat, w: string, rest: string) {
    text == Copies(k, ' ') + w + rest
  }

  // ----- numbers are read as they are written -----

  /** Digits below the base in front are read first. */
  lemma {:induction false} AccumulateFront(s: string, t: string, base: int, acc: int)
    requires forall k | 0 <= k < |s| :: IsDigit(s[k]) && DigitVal(s[k]) < base
    ensures Accumulate(s + t, base, acc) == Accumulate(t, base, Accumulate(s, base, acc))
  {
    if s == [] {
      assert s + t == t;
    } else {
      assert (s + t)[1..] == s[1..] + t;
      AccumulateFront(s[1..], t, base, acc * base + DigitVal(s[0]));
    }
  }

  lemma {:induction false} NumeralRead(n: nat, base: nat, tail: string)
    requires 2 <= base <= 10 && (tail == [] || !IsDigit(tail[0]) || DigitVal(tail[0]) >= base)
    ensures Accumulate(Numeral(n, base) + tail, base, 0) == n
  {
    AccumulateFront(Numeral(n, base), tail, base, 0);
    NumeralValue(n, base);
  }

  lemma {:induction false} NumeralValue(n: nat, base: nat)
    requires 2 <= base <= 10
    ensures Accumulate(Numeral(n, base), base, 0) == n
  {
    if n > 0 {
      var q, last := NumeralParts(n, base);
      hide Numeral, Accumulate, DigitVal;
      NumeralValue(q, base);
      AccumulateFront(Numeral(q, base), [last], base, 0);
      OneDigit(last, base, q);
    }
  }

  /** The last digit of a numeral and the number before it. */
  lemma {:induction false} NumeralParts(n: nat, base: nat) returns (q: nat, last: char)
    requires 2 <= base <= 10 && n > 0
    ensures Numeral(n, base) == Numeral(q, base) + [last] && q < n
    ensures IsDigit(last) && DigitVal(last) < base && n == q * base + DigitVal(last)
  {
    q := n / base;
    var d := n % base;
    assert n == q * base + d && d < base;
    assert q >= n ==> q * base >= 2 * n;
    last := (('0' as int) + d) as char;
  }

  lemma {:induction false} OneDigit(c: char, base: int, acc: int)
    requires IsDigit(c) && DigitVal(c) < base
    ensures Accumulate([c], base, acc) == acc * base + DigitVal(c)
  {
    assert [c][1..] == [];
  }

  /** Digits below the base without a leading zero are the numeral of their value. */
  lemma {:induction false} DigitsAreNumeral(s: string, base: nat)
    requires 2 <= base <= 10 && forall k | 0 <= k < |s| :: IsDigit(s[k]) && DigitVal(s[k]) < base
    requires s != [] ==> s[0] != '0'
    ensures Accumulate(s, base, 0) >= 0 && s == Numeral(Accumulate(s, base, 0), base)
    ensures s != [] ==> Accumulate(s, base, 0) > 0
  {
    if s != [] {
      hide Numeral, Accumulate, DigitVal;
      var front, c := s[..|s| - 1], s[|s| - 1];
      assert s == front + [c];
      DigitsAreNumeral(front, base);
      var q := Accumulate(front, base, 0);
      AccumulateFront(front, [c], base, 0);
      OneDigit(c, base, q);
      assert front == [] ==> DigitVal(c) > 0 by { NotZero(c); }
      QuotientOf(q, base, DigitVal(c));
      NumeralSnoc(q, base, c);
    }
  }

  lemma {:induction false} NotZero(c: char)
    requires IsDigit(c)
    ensures c != '0' ==> DigitVal(c) > 0
  {
  }

  lemma {:induction false} NumeralSnoc(q: nat, base: nat, c: char)
    requires 2 <= base <= 10 && IsDigit(c) && DigitVal(c) < base && q * base + DigitVal(c) > 0
    ensures Numeral(q * base + DigitVal(c), base) == Numeral(q, base) + [c]
  {
    QuotientOf(q, base, DigitVal(c));
  }

  lemma {:induction false} QuotientOf(q: nat, base: nat, d: nat)
    requires 2 <= base && d < base
    ensures (q * base + d) / base == q && (q * base + d) % base == d
    ensures q > 0 ==> q * base + d > 0
  {
    var x := q * base + d;
    var y, r := x / base, x % base;
    assert x == y * base + r && r < base;
    assert (y - q) * base == d - r;
    AtLeast(y - q, base);
    AtLeast(q - y, base);
    assert (q - y) * base == r - d;
    AtLeast(q, base);
  }

  lemma {:induction false} AtLeast(k: int, base: nat)
    ensures k >= 1 ==> k * base >= base
  {
    if k > 1 {
      AtLeast(k - 1, base);
    }
  }

  lemma {:induction false} ZerosRead(k: nat, t: string)
    ensures Accumulate(Copies(k, '0') + t, 8, 0) == Accumulate(t, 8, 0)
  {
    if k == 0 {
      assert Copies(k, '0') + t == t;
    } else {
      ZerosRead(k - 1, ['0'] + t);
      assert Copies(k, '0') + t == Copies(k - 1, '0') + (['0'] + t);
      assert (['0'] + t)[1..] == t;
    }
  }

  lemma {:induction false} CopiesAt<T>(n: nat, x: T)
    ensures forall k | 0 <= k < n :: Copies(n, x)[k] == x
  {
    if n > 0 {
      CopiesAt(n - 1, x);
    }
  }

  lemma {:induction false} NumeralFirst(n: nat, base: nat)
    requires 2 <= base <= 10 && n > 0
    ensures Numeral(n, base) != [] && Numeral(n, base)[0] != '0'
  {
    var q, last := NumeralParts(n, base);
    if q > 0 {
      hide Numeral, DigitVal;
      NumeralFirst(q, base);
    } else {
      assert Numeral(q, base) == [];
    }
  }

  /** All digits. */
  predicate Digits(s: string) {
    forall k | 0 <= k < |s| :: IsDigit(s[k])
  }

  function BaseOf(digits: string): int {
    if digits != [] && digits[0] == '0' then 8 else 10
  }

  /** Digits that stand for n are read as n. */
  lemma {:induction false} StandsRead(digits: string, n: nat, neg: bool)
    requires Stands(digits, n, neg)
    ensures Digits(digits) && Accumulate(digits, BaseOf(digits), 0) == n && (digits == [] ==> neg)
  {
    hide Numeral, Copies;
    if digits == Numeral(n, 10) && n > 0 {
      NumeralFirst(n, 10);
      NumeralValue(n, 10);
    } else if digits != [] {
      var zeros, tail :| OctalWord(digits, n, zeros, tail);
      CopiesAt(zeros, '0');
      assert digits[0] == Copies(zeros, '0')[0];
      assert digits == Copies(zeros, '0') + (Numeral(n, 8) + tail);
      ZerosRead(zeros, Numeral(n, 8) + tail);
      NumeralRead(n, 8, tail);
    }
  }

  /** Leading octal digits and the rest. */
  lemma {:induction false} SplitOctal(s: string) returns (a: string, b: string)
    requires Digits(s)
    ensures s == a + b && Digits(b) && (b != [] ==> b[0] in {'8', '9'})
    ensures forall k | 0 <= k < |a| :: IsDigit(a[k]) && DigitVal(a[k]) < 8
  {
    if s == [] || DigitVal(s[0]) >= 8 {
      a, b := [], s;
    } else {
      var c;
      c, b := SplitOctal(s[1..]);
      a := [s[0]] + c;
      assert s == [s[0]] + s[1..];
    }
  }

  /** Leading zeros and the rest. */
  lemma {:induction false} SplitZeros(s: string) returns (k: nat, t: string)
    ensures s == Copies(k, '0') + t && (t != [] ==> t[0] != '0') && (s != [] && s[0] == '0' ==> k > 0)
    ensures forall i | 0 <= i < |t| :: t[i] in s
  {
    if s == [] || s[0] != '0' {
      k, t := 0, s;
    } else {
      var j;
      j, t := SplitZeros(s[1..]);
      k := j + 1;
      CopiesFront(j, '0');
      assert s == ['0'] + s[1..];
    }
  }

  lemma {:induction false} CopiesFront<T>(n: nat, x: T)
    ensures Copies(n + 1, x) == [x] + Copies(n, x)
  {
    if n > 0 {
      CopiesFront(n - 1, x);
    }
  }

  /** Any digits stand for what is read of them. */
  lemma {:induction false} ReadStands(digits: string, neg: bool)
    requires Digits(digits) && (digits == [] ==> neg)
    ensures var n := Accumulate(digits, BaseOf(digits), 0); n >= 0 && Stands(digits, n, neg)
  {
    if digits == [] {
    } else if digits[0] != '0' {
      hide Numeral, Accumulate;
      DigitsAreNumeral(digits, 10);
    } else {
      hide Accumulate, OctalWord;
      var n, zeros, tail := OctalStands(digits);
    }
  }

  lemma {:induction false} OctalStands(digits: string) returns (n: nat, zeros: nat, tail: string)
    requires Digits(digits) && digits != [] && digits[0] == '0'
    ensures OctalWord(digits, n, zeros, tail) && Accumulate(digits, 8, 0) == n
  {
    hide Numeral, Copies, Accumulate, DigitVal;
    var rest, a;
    zeros, rest := SplitZeros(digits);
    assert Digits(rest);
    a, tail := SplitOctal(rest);
    assert a != [] ==> a[0] == rest[0];
    DigitsAreNumeral(a, 8);
    n := Accumulate(a, 8, 0);
    assert digits == Copies(zeros, '0') + (Numeral(n, 8) + tail);
    ZerosRead(zeros, Numeral(n, 8) + tail);
    assert tail != [] ==> IsDigit(tail[0]) && DigitVal(tail[0]) >= 8 by { EightOrNine(tail); }
    NumeralRead(n, 8, tail);
  }

  lemma {:induction false} EightOrNine(tail: string)
    requires tail != [] ==> tail[0] in {'8', '9'}
    ensures tail != [] ==> IsDigit(tail[0]) && DigitVal(tail[0]) >= 8
  {
  }

  /** What the lexer takes for a number: a digit or a minus, and then digits. */
  predicate NumberShape(w: string) {
    w != [] && StartsNumber(w[0]) && Digits(w[1..])
  }

  /** The words for v are just those of at most 15 characters that are read as v. */
  lemma {:induction false} NumberWordIff(w: string, v: int32)
    ensures NumberWord(w, v) <==> |w| <= 15 && NumberShape(w) && StrToL(w) == v
  {
    if NumberWord(w, v) {
      var neg, digits, n :| NumberParts(w, v, neg, digits, n);
      StandsRead(digits, n, neg);
      if neg {
        assert w[1..] == digits;
      } else {
        assert IsDigit(w[0]) && Digits(w[1..]);
      }
    }
    if |w| <= 15 && NumberShape(w) && StrToL(w) == v {
      var neg := w[0] == '-';
      var digits := if neg then w[1..] else w;
      assert Digits(digits);
      ReadStands(digits, neg);
      assert NumberParts(w, v, neg, digits, Accumulate(digits, BaseOf(digits), 0));
    }
  }

  // ----- texts are read as they are written -----

  lemma {:induction false} SkipsBlanks(buf: string, p: nat, k: nat, rest: string)
    requires p <= |buf| && buf[p..] == Copies(k, ' ') + rest && (rest != [] ==> rest[0] != ' ')
    ensures SkipBlanks(buf, p) == p + k && p + k <= |buf| && buf[p + k..] == rest
    decreases k
  {
    if k == 0 {
      assert rest == buf[p..];
      assert p < |buf| ==> rest[0] == buf[p];
    } else {
      CopiesFront(k - 1, ' ');
      assert buf[p] == buf[p..][0] == ' ';
      assert buf[p + 1..] == buf[p..][1..] == Copies(k - 1, ' ') + rest;
      SkipsBlanks(buf, p + 1, k - 1, rest);
    }
  }

  lemma {:induction false} BlanksSkipped(buf: string, p: nat) returns (k: nat)
    requires p <= |buf|
    ensures SkipBlanks(buf, p) == p + k <= |buf| && buf[p..] == Copies(k, ' ') + buf[p + k..]
    decreases |buf| - p
  {
    if p < |buf| && buf[p] == ' ' {
      var j := BlanksSkipped(buf, p + 1);
      k := j + 1;
      CopiesFront(j, ' ');
      assert buf[p..] == [' '] + buf[p + 1..];
    } else {
      k := 0;
    }
  }

  /** What tokens may follow one another, and that the parentheses match. */
  predicate Legal(ts: seq<Token>, mode: Mode, count: int) {
    if ts == [] then mode.WaitOperator? && count == 0
    else if mode.WaitOperand? then
      match ts[0]
      case TVal(_) => Legal(ts[1..], WaitOperator, count)
      case TOpr(c) => c == '!' && Legal(ts[1..], WaitOperand, count)
      case TOpen => Legal(ts[1..], WaitOperand, count + 1)
      case _ => false
    else if mode.WaitOperator? then
      match ts[0]
      case TOpr(c) => c in {'&', '|'} && Legal(ts[1..], WaitOperand, count)
      case TClose => count >= 1 && Legal(ts[1..], WaitOperator, count - 1)
      case _ => false
    else false
  }

  /** How a number at p ends. */
  lemma {:induction false} NumberEnds(buf: string, p: nat, w: string, rest: string)
    requires p <= |buf| && buf[p..] == w + rest && NumberShape(w) && (rest != [] ==> !IsDigit(rest[0]))
    ensures SkipDigits(buf, p + 1) == p + |w| && buf[p..p + |w|] == w && buf[p + |w|..] == rest
  {
    var q := p + |w|;
    assert |buf| == p + |w| + |rest|;
    assert buf[p..q] == buf[p..][..|w|] == w;
    assert buf[q..] == buf[p..][|w|..] == rest;
    forall k | p + 1 <= k < q
      ensures IsDigit(buf[k])
    {
      assert buf[k] == buf[p..][k - p] == w[1..][k - p - 1];
    }
    assert q < |buf| ==> buf[q] == rest[0];
    DigitsSkipped(buf, p + 1, q);
  }

  lemma {:induction false} DigitsSkipped(buf: string, p: nat, q: nat)
    requires p <= q <= |buf| && (forall k | p <= k < q :: IsDigit(buf[k])) && !IsDigit(At(buf, q))
    ensures SkipDigits(buf, p) == q
    decreases q - p
  {
    if p < q {
      DigitsSkipped(buf, p + 1, q);
    }
  }

  /** The character after the word of an operand. */
  ghost predicate Follow(rest: string, count: int) {
    (rest != [] ==> !IsDigit(rest[0])) && (count != 0 ==> !Ends(rest))
  }

  /** After an operand comes a blank, an operator, a parenthesis or the end. */
  lemma {:induction false} Follows1(rest: string, ts: seq<Token>, count: int)
    requires Written(rest, ts) && Legal(ts, WaitOperator, count)
    ensures Follow(rest, count)
  {
    if ts == [] {
      var k, r :| Leads(rest, k, [], r) && Ends(r);
      assert rest == Copies(k, ' ') + r;
      CopiesAt(k, ' ');
      assert k > 0 ==> rest[0] == ' ';
    } else {
      var k, w, r :| Leads(rest, k, w, r) && Word(w, ts[0]) && Written(r, ts[1..]);
      CopiesAt(k, ' ');
      assert rest == Copies(k, ' ') + (w + r);
      assert k > 0 ==> rest[0] == ' ';
      assert k == 0 ==> rest[0] == w[0];
    }
  }

  /** One token is read where its word is written. */
  lemma {:induction false} WordRead(buf: string, pos: nat, ts: seq<Token>, mode: Mode, count: int, k: nat, w: string, rest: string)
    requires pos <= |buf| && ts != [] && Legal(ts, mode, count)
    requires Leads(buf[pos..], k, w, rest) && Word(w, ts[0]) && Written(rest, ts[1..])
    ensures var r := NextToken(buf, pos, mode, count);
            r.tok == ts[0] && buf[r.pos..] == rest && Legal(ts[1..], r.mode, r.count)
  {
    hide Written, Copies, StrToL, NumberFrom, SkipBlanks, NumberWord, Follow;
    var p := pos + k;
    var t := w + rest;
    assert buf[pos..] == Copies(k, ' ') + t;
    if ts[0].TVal? {
      NumberWordIff(w, ts[0].v);
      assert t[0] == w[0];
      SkipsBlanks(buf, pos, k, t);
      Follows1(rest, ts[1..], count);
      NumberAt(buf, p, ts[0].v, count, w, rest);
    } else {
      assert t[0] == w[0] && t[1..] == rest;
      SkipsBlanks(buf, pos, k, t);
      assert At(buf, p) == buf[p..][0] == w[0];
      assert buf[p + 1..] == buf[p..][1..] == rest;
    }
  }

  lemma {:induction false} NumberAt(buf: string, p: nat, v: int32, count: int, w: string, rest: string)
    requires p <= |buf| && buf[p..] == w + rest && Follow(rest, count)
    requires |w| <= 15 && NumberShape(w) && StrToL(w) == v
    ensures TokenAt(buf, p, WaitOperand, count) == Lexed(TVal(v), p + |w|, WaitOperator, count)
    ensures p + |w| <= |buf| && buf[p + |w|..] == rest
  {
    hide StrToL, SkipDigits;
    NumberEnds(buf, p, w, rest);
    assert At(buf, p) == buf[p..][0] == w[0];
    assert rest != [] ==> At(buf, p + |w|) == buf[p + |w|..][0];
    assert NumberToken(buf, p, p + |w|, count) == TVal(v);
  }

  /** A written text is read as it is written. */
  lemma {:induction false} WrittenRead(buf: string, pos: nat, ts: seq<Token>, mode: Mode, count: int)
    requires pos <= |buf| && !mode.WaitEndOperand? && Legal(ts, mode, count) && Written(buf[pos..], ts)
    ensures Tokens(buf, pos, mode, count) == ts + [TEnd]
    decreases |ts|
  {
    hide Legal, Word, NextToken;
    if ts == [] {
      EndRead(buf, pos, mode, count);
    } else {
      var k, w, rest :| Leads(buf[pos..], k, w, rest) && Word(w, ts[0]) && Written(rest, ts[1..]);
      WordRead(buf, pos, ts, mode, count, k, w, rest);
      var r := NextToken(buf, pos, mode, count);
      assert ts == [ts[0]] + ts[1..];
      LegalTokens(ts, mode, count);
      WrittenRead(buf, r.pos, ts[1..], r.mode, r.count);
    }
  }

  lemma {:induction false} LegalTokens(ts: seq<Token>, mode: Mode, count: int)
    requires ts != [] && Legal(ts, mode, count)
    ensures !ts[0].TEnd? && !ts[0].TErr?
  {
  }

  lemma {:induction false} EndRead(buf: string, pos: nat, mode: Mode, count: int)
    requires pos <= |buf| && Legal([], mode, count) && Written(buf[pos..], [])
    ensures NextToken(buf, pos, mode, count).tok == TEnd
  {
    var k, rest :| Leads(buf[pos..], k, [], rest) && Ends(rest);
    assert buf[pos..] == Copies(k, ' ') + rest;
    SkipsBlanks(buf, pos, k, rest);
    assert rest != [] ==> At(buf, pos + k) == buf[pos + k..][0];
    assert rest == [] ==> pos + k == |buf|;
  }

  /** What is read is written so. */
  lemma {:induction false} ReadWritten(buf: string, pos: nat, ts: seq<Token>, mode: Mode, count: int)
    requires pos <= |buf| && !mode.WaitEndOperand? && Tokens(buf, pos, mode, count) == ts + [TEnd]
    ensures Written(buf[pos..], ts) && Legal(ts, mode, count)
    decreases |ts|
  {
    hide Legal, Word, NextToken, Written, Leads, Tokens;
    var r := NextToken(buf, pos, mode, count);
    TokensFirst(buf, pos, mode, count);
    if ts == [] {
      assert ([] + [TEnd])[0] == TEnd;
      ReadEnd(buf, pos, mode, count);
    } else {
      assert r.tok == (ts + [TEnd])[0] == ts[0];
      if !r.tok.TEnd? && !r.tok.TErr? {
        var k, w := ReadWord(buf, pos, mode, count);
        assert ts[1..] + [TEnd] == (ts + [TEnd])[1..] == Tokens(buf, r.pos, r.mode, r.count);
        ReadWritten(buf, r.pos, ts[1..], r.mode, r.count);
        WrittenStep(buf[pos..], ts, k, w, buf[r.pos..]);
        LegalStep(buf, pos, ts, mode, count);
      }
    }
  }

  lemma {:induction false} TokensFirst(buf: string, pos: nat, mode: Mode, count: int)
    requires pos <= |buf| && !mode.WaitEndOperand?
    ensures var r := NextToken(buf, pos, mode, count);
            Tokens(buf, pos, mode, count) ==
              if r.tok.TEnd? || r.tok.TErr? then [r.tok] else [r.tok] + Tokens(buf, r.pos, r.mode, r.count)
    ensures Tokens(buf, pos, mode, count)[0] == NextToken(buf, pos, mode, count).tok
  {
    hide NextToken;
  }

  lemma {:induction false} WrittenStep(text: string, ts: seq<Token>, k: nat, w: string, rest: string)
    requires ts != [] && Leads(text, k, w, rest) && Word(w, ts[0]) && Written(rest, ts[1..])
    ensures Written(text, ts)
  {
  }

  lemma {:induction false} LegalStep(buf: string, pos: nat, ts: seq<Token>, mode: Mode, count: int)
    requires pos <= |buf| && !mode.WaitEndOperand? && ts != []
    requires var r := NextToken(buf, pos, mode, count);
             r.tok == ts[0] && !r.tok.TEnd? && !r.tok.TErr? && Legal(ts[1..], r.mode, r.count)
    ensures Legal(ts, mode, count)
  {
    hide StrToL;
  }

  lemma {:induction false} ReadEnd(buf: string, pos: nat, mode: Mode, count: int)
    requires pos <= |buf| && !mode.WaitEndOperand? && NextToken(buf, pos, mode, count).tok == TEnd
    ensures Written(buf[pos..], []) && Legal([], mode, count)
  {
    hide StrToL;
    var k := BlanksSkipped(buf, pos);
    assert Leads(buf[pos..], k, [], buf[pos + k..]) && Ends(buf[pos + k..]);
  }

  /** The word of the token that was read. */
  lemma {:induction false} ReadWord(buf: string, pos: nat, mode: Mode, count: int) returns (k: nat, w: string)
    requires pos <= |buf| && !mode.WaitEndOperand?
    requires var r := NextToken(buf, pos, mode, count); !r.tok.TEnd? && !r.tok.TErr?
    ensures var r := NextToken(buf, pos, mode, count); Leads(buf[pos..], k, w, buf[r.pos..]) && Word(w, r.tok)
  {
    hide StrToL, Copies, NumberFrom, SkipBlanks, NumberWord, IsDigit;
    var r := NextToken(buf, pos, mode, count);
    k := BlanksSkipped(buf, pos);
    var p := pos + k;
    assert p < |buf|;
    if mode.WaitOperand? && StartsNumber(buf[p]) {
      w := NumberBehind(buf, p, count);
    } else {
      w := [buf[p]];
      assert r.pos == p + 1;
      assert Word(w, r.tok);
    }
    assert buf[p..] == w + buf[r.pos..];
  }

  lemma {:induction false} NumberBehind(buf: string, p: nat, count: int) returns (w: string)
    requires p < |buf| && StartsNumber(buf[p]) && !NumberFrom(buf, p, p + 1, count).tok.TErr?
    ensures var r := NumberFrom(buf, p, p + 1, count);
            p <= r.pos <= |buf| && w == buf[p..r.pos] && r.tok.TVal? && NumberWord(w, r.tok.v)
  {
    hide StrToL, NumberWord, SkipDigits;
    var r := NumberFrom(buf, p, p + 1, count);
    w := buf[p..r.pos];
    DigitsBetween(buf, p + 1);
    assert forall i | 0 <= i < |w[1..]| :: w[1..][i] == buf[p + 1 + i];
    NumberWordIff(w, r.tok.v);
  }

  lemma {:induction false} DigitsBetween(buf: string, p: nat)
    requires p <= |buf|
    ensures forall k | p <= k < SkipDigits(buf, p) :: k < |buf| && IsDigit(buf[k])
    decreases |buf| - p
  {
    if p < |buf| && IsDigit(buf[p]) {
      DigitsBetween(buf, p + 1);
    }
  }

  // ----- parse trees -----

  lemma {:induction false} LegalBangs(n: nat, ts: seq<Token>, count: int)
    requires Legal(ts, WaitOperand, count)
    ensures Legal(Copies(n, BANG) + ts, WaitOperand, count)
  {
    if n == 0 {
      assert Copies(n, BANG) + ts == ts;
    } else {
      LegalBangs(n - 1, ts, count);
      CopiesFront(n - 1, BANG);
      assert (Copies(n, BANG) + ts)[1..] == Copies(n - 1, BANG) + ts;
    }
  }

  lemma {:induction false} LegalPrim(p: Prim, ts: seq<Token>, count: nat)
    requires Legal(ts, WaitOperator, count)
    ensures Legal(YieldPrim(p) + ts, WaitOperand, count)
    decreases p, 0
  {
    match p
    case Num(v) => assert ([TVal(v)] + ts)[1..] == ts;
    case Group(d) =>
      assert ([TClose] + ts)[1..] == ts;
      LegalDisj(d, [TClose] + ts, count + 1);
      assert (YieldPrim(p) + ts)[1..] == YieldDisj(d) + ([TClose] + ts);
  }

  lemma {:induction false} LegalFactor(f: Factor, ts: seq<Token>, count: nat)
    requires Legal(ts, WaitOperator, count)
    ensures Legal(YieldFactor(f) + ts, WaitOperand, count)
    decreases f, 1
  {
    hide Legal, YieldPrim;
    LegalPrim(f.prim, ts, count);
    LegalBangs(f.bangs, YieldPrim(f.prim) + ts, count);
    assert YieldFactor(f) + ts == Copies(f.bangs, BANG) + (YieldPrim(f.prim) + ts);
  }

  lemma {:induction false} LegalOperator(c: char, ts: seq<Token>, count: int)
    requires c in {'&', '|'} && Legal(ts, WaitOperand, count)
    ensures Legal([TOpr(c)] + ts, WaitOperator, count)
  {
    assert ([TOpr(c)] + ts)[1..] == ts;
  }

  lemma {:induction false} LegalConj(c: Conj, ts: seq<Token>, count: nat)
    requires Legal(ts, WaitOperator, count)
    ensures Legal(YieldConj(c) + ts, WaitOperand, count)
    decreases c, 2
  {
    hide Legal, YieldFactor;
    match c
    case One(f) => LegalFactor(f, ts, count);
    case More(c', f) =>
      LegalFactor(f, ts, count);
      LegalOperator('&', YieldFactor(f) + ts, count);
      LegalConj(c', [AMP] + (YieldFactor(f) + ts), count);
      assert YieldConj(c) + ts == YieldConj(c') + ([AMP] + (YieldFactor(f) + ts));
  }

  lemma {:induction false} LegalDisj(d: Disj, ts: seq<Token>, count: nat)
    requires Legal(ts, WaitOperator, count)
    ensures Legal(YieldDisj(d) + ts, WaitOperand, count)
    decreases d, 3
  {
    hide Legal, YieldConj;
    match d
    case Single(c) => LegalConj(c, ts, count);
    case Alt(d', c) =>
      LegalConj(c, ts, count);
      LegalOperator('|', YieldConj(c) + ts, count);
      LegalDisj(d', [BAR] + (YieldConj(c) + ts), count);
      assert YieldDisj(d) + ts == YieldDisj(d') + ([BAR] + (YieldConj(c) + ts));
  }

  /** The texts of a query are exactly those that write the tokens of its parse tree: with any
      blanks, and with every number decimal or octal. */
  lemma {:induction false} SpellsIffWritten(text: string, d: Disj)
    ensures Spells(text, d) <==> Written(text, YieldDisj(d))
  {
    hide Legal, Written, Tokens, YieldDisj;
    assert text[0..] == text;
    if Spells(text, d) {
      ReadWritten(text, 0, YieldDisj(d), WaitOperand, 0);
    }
    if Written(text, YieldDisj(d)) {
      assert Legal([], WaitOperator, 0) by { LegalEnd(); }
      LegalDisj(d, [], 0);
      assert YieldDisj(d) + [] == YieldDisj(d);
      WrittenRead(text, 0, YieldDisj(d), WaitOperand, 0);
    }
  }

  lemma {:induction false} LegalEnd()
    ensures Legal([], WaitOperator, 0)
  {
  }

  /** A number in octal after a leading zero, with or without a sign, is read as that number, and
      a digit 8 or 9 ends what is read of it. */
  lemma {:induction false} OctalToken(n: int, neg: bool, zeros: nat, tail: string)
    requires 0 <= n && -0x8000_0000 <= (if neg then -n else n) < 0x8000_0000
    requires zeros > 0 && forall k | 0 <= k < |tail| :: '0' <= tail[k] <= '9'
    requires tail != [] ==> tail[0] in {'8', '9'}
    requires |Signed(neg, Copies(zeros, '0') + Numeral(n, 8) + tail)| <= 15
    ensures TextTokens(Signed(neg, Copies(zeros, '0') + Numeral(n, 8) + tail))
         == [TVal(if neg then -n else n), TEnd]
  {
    hide Numeral, Copies, Tokens;
    var digits := Copies(zeros, '0') + Numeral(n, 8) + tail;
    var text := Signed(neg, digits);
    var v: int32 := if neg then -n else n;
    assert OctalWord(digits, n, zeros, tail);
    assert NumberParts(text, v, neg, digits, n);
    assert Word(text, TVal(v));
    EmptyWritten();
    NoBlanks();
    assert Leads(text, 0, text, []);
    WrittenStep(text, [TVal(v)], 0, text, []);
    assert text[0..] == text;
    LegalEnd();
    assert [TVal(v)][1..] == [];
    assert Legal([TVal(v)], WaitOperand, 0);
    WrittenRead(text, 0, [TVal(v)], WaitOperand, 0);
  }

  lemma {:induction false} NoBlanks()
    ensures Copies(0, ' ') == []
  {
  }

  lemma {:induction false} EmptyWritten()
    ensures Written([], [])
  {
    assert Leads([], 0, [], []);
  }

  /** Every int32 reads back from its octal digits after a zero. */
  lemma {:induction false} OctalRoundTrip(v: int32)
    ensures TextTokens(if v < 0 then "-0" + Numeral(-(v as int), 8) else "0" + Numeral(v, 8)) == [TVal(v), TEnd]
  {
    hide Tokens, Numeral;
    var n: nat := if v < 0 then -(v as int) else v;
    NumeralLength(n, 11);
    var digits := Copies(1, '0') + Numeral(n, 8) + [];
    assert Copies(1, '0') == "0";
    assert digits == "0" + Numeral(n, 8);
    assert Signed(true, digits) == "-0" + Numeral(n, 8);
    OctalToken(n, v < 0, 1, []);
  }

  lemma {:induction false} NumeralLength(n: nat, k: nat)
    requires n < EightTo(k)
    ensures |Numeral(n, 8)| <= k
  {
    if n > 0 {
      NumeralLength(n / 8, k - 1);
    }
  }

  function EightTo(k: nat): nat {
    if k == 0 then 1 else 8 * EightTo(k - 1)
  }
}
