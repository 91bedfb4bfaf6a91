/**
 The lexer of boolean queries (contrib/intarray/_int_bool.c, gettoken). The text is a C
 string: reading past its end, or a NUL character inside it, ends it.
 */
module IntQueryLex {
  import opened IntQuery

  datatype Token = TVal(v: int32) | TOpr(c: char) | TOpen | TClose | TEnd | TErr

  datatype Mode = WaitOperand | WaitEndOperand | WaitOperator

  /** The number buffer, its terminator included. */
  const NUMBER_BUFFER: nat := 16

  function At(buf: string, p: nat): char {
    if p < |buf| then buf[p] else '\0'
  }

  predicate IsDigit(c: char) {
    '0' <= c <= '9'
  }

  function DigitVal(c: char): (d: nat)
    requires IsDigit(c)
    ensures d < 10
  {
    (c as int) - ('0' as int)
  }

  /** The digits of s below the base, up to the first other character, appended to acc. */
  function Accumulate(s: string, base: int, acc: int): int {
    if s == [] || !IsDigit(s[0]) || DigitVal(s[0]) >= base then acc
    else Accumulate(s[1..], base, acc * base + DigitVal(s[0]))
  }

  /** strtol with base 0 on what the lexer collects: a leading zero means octal, and
      what cannot be read is ignored. */
  function StrToL(s: string): int {
    var digits := if s != [] && s[0] == '-' then s[1..] else s;
    var base := if digits != [] && digits[0] == '0' then 8 else 10;
    if s != [] && s[0] == '-' then -Accumulate(digits, base, 0) else Accumulate(digits, base, 0)
  }

  /** The first position from p on that holds no blank. */
  function SkipBlanks(buf: string, p: nat): (q: nat)
    ensures q >= p && (q > |buf| ==> q == p)
    ensures At(buf, q) != ' '
    decreases |buf| - p
  {
    if p < |buf| && buf[p] == ' ' then SkipBlanks(buf, p + 1) else p
  }

  /** The first position from p on that holds no digit. */
  function SkipDigits(buf: string, p: nat): (q: nat)
    ensures q >= p && (q > |buf| ==> q == p)
    ensures !IsDigit(At(buf, q))
    decreases |buf| - p
  {
    if p < |buf| && IsDigit(buf[p]) then SkipDigits(buf, p + 1) else p
  }

  /** A token and the lexer state after it. */
  datatype Lexed = Lexed(tok: Token, pos: nat, mode: Mode, count: int)

  predicate StartsNumber(c: char) {
    IsDigit(c) || c == '-'
  }

  /** The token for the number that stands at buf[p..q]. */
  function NumberToken(buf: string, p: nat, q: nat, count: int): Token
    requires p <= q <= |buf|
  {
    var v := StrToL(buf[p..q]);
    if q - p >= NUMBER_BUFFER || !(-0x8000_0000 <= v < 0x8000_0000) then TErr
    else if count != 0 && At(buf, q) == '\0' then TErr
    else TVal(v)
  }

  /** The number that started at `first` and has been read up to p. */
  function NumberFrom(buf: string, first: nat, p: nat, count: int): Lexed
    requires first <= p <= |buf|
  {
    var q := SkipDigits(buf, p);
    Lexed(NumberToken(buf, first, q, count), q, WaitOperator, count)
  }

  lemma {:induction false} NumberSteps(buf: string, first: nat, p: nat, count: int)
    requires first <= p <= |buf|
    ensures IsDigit(At(buf, p)) ==> NumberFrom(buf, first, p, count) == NumberFrom(buf, first, p + 1, count)
    ensures !IsDigit(At(buf, p)) ==>
              NumberFrom(buf, first, p, count) == Lexed(NumberToken(buf, first, p, count), p, WaitOperator, count)
    ensures p - first >= NUMBER_BUFFER ==> NumberFrom(buf, first, p, count).tok == TErr
  {
  }

  /** What gettoken returns when the text goes on at p with something other than a blank. */
  function TokenAt(buf: string, p: nat, mode: Mode, count: int): (r: Lexed)
    requires !mode.WaitEndOperand? && p <= |buf|
    ensures r.pos <= |buf|
    ensures r.tok.TEnd? || r.tok.TErr? || (r.pos > p && !r.mode.WaitEndOperand?)
  {
    var c := At(buf, p);
    if mode.WaitOperand? then
      if StartsNumber(c) then NumberFrom(buf, p, p + 1, count)
      else if c == '!' then Lexed(TOpr('!'), p + 1, WaitOperand, count)
      else if c == '(' then Lexed(TOpen, p + 1, WaitOperand, count + 1)
      else Lexed(TErr, p, WaitOperand, count)
    else
      if c == '&' || c == '|' then Lexed(TOpr(c), p + 1, WaitOperand, count)
      else if c == ')' then Lexed(if count - 1 < 0 then TErr else TClose, p + 1, WaitOperator, count - 1)
      else if c == '\0' then Lexed(if count != 0 then TErr else TEnd, p, WaitOperator, count)
      else Lexed(TErr, p, WaitOperator, count)
  }

  /** What gettoken returns from a state between two tokens. */
  function NextToken(buf: string, pos: nat, mode: Mode, count: int): (r: Lexed)
    requires !mode.WaitEndOperand? && pos <= |buf|
    ensures r.pos <= |buf|
    ensures r.tok.TEnd? || r.tok.TErr? || (r.pos > pos && !r.mode.WaitEndOperand?)
  {
    TokenAt(buf, SkipBlanks(buf, pos), mode, count)
  }

  lemma {:induction false} BlankSteps(buf: string, pos: nat, mode: Mode, count: int)
    requires !mode.WaitEndOperand? && pos <= |buf|
    ensures At(buf, pos) == ' ' ==> pos < |buf| && NextToken(buf, pos, mode, count) == NextToken(buf, pos + 1, mode, count)
    ensures At(buf, pos) != ' ' ==> NextToken(buf, pos, mode, count) == TokenAt(buf, pos, mode, count)
  {
  }

  /** The whole token stream of a text, up to and including its TEnd or TErr. */
  function Tokens(buf: string, pos: nat, mode: Mode, count: int): (s: seq<Token>)
    requires !mode.WaitEndOperand? && pos <= |buf|
    ensures |s| >= 1
    decreases |buf| - pos
  {
    var r := NextToken(buf, pos, mode, count);
    if r.tok.TEnd? || r.tok.TErr? then [r.tok] else [r.tok] + Tokens(buf, r.pos, r.mode, r.count)
  }

  /** The lexer part of WORKSTATE, with the tokens read so far as a ghost. */
  class Lexer {
    const buf: string
    var pos: nat
    var mode: Mode
    var count: int
    ghost var read: seq<Token>

    /** Between two tokens: what was read and what is still to come make up the stream. */
    ghost predicate Valid()
      reads this
    {
      && pos <= |buf| && !mode.WaitEndOperand?
      && Tokens(buf, 0, WaitOperand, 0) == read + Tokens(buf, pos, mode, count)
    }

    constructor (buf: string)
      ensures Valid() && this.buf == buf && read == [] && mode == WaitOperand && count == 0
    {
      this.buf := buf;
      pos := 0;
      mode := WaitOperand;
      count := 0;
      read := [];
    }

    /** The WAITENDOPERAND state of gettoken, entered on the first character of a number:
        at most 15 characters fit the buffer before its terminator. */
    method ReadNumber() returns (tok: Token)
      requires pos < |buf|
      modifies this`pos, this`mode
      ensures tok == NumberFrom(buf, old(pos), old(pos) + 1, count).tok
      ensures !tok.TErr? ==> Lexed(tok, pos, mode, count) == NumberFrom(buf, old(pos), old(pos) + 1, count)
    {
      hide StrToL, NumberFrom;
      ghost var first := pos;
      var nnn := new char[NUMBER_BUFFER];
      var innn := 0;
      mode := WaitEndOperand;
      nnn[innn] := buf[pos];
      innn := innn + 1;
      pos := pos + 1;
      while true
        invariant 1 <= innn <= NUMBER_BUFFER && pos == first + innn <= |buf|
        invariant forall k | 0 <= k < innn :: nnn[k] == buf[first + k]
        invariant NumberFrom(buf, first, first + 1, count) == NumberFrom(buf, first, pos, count)
        decreases |buf| - pos
      {
        NumberSteps(buf, first, pos, count);
        if innn >= NUMBER_BUFFER {
          return TErr;
        }
        var c := At(buf, pos);
        if IsDigit(c) {
          nnn[innn] := c;
          innn := innn + 1;
        } else {
          assert nnn[..innn] == buf[first..pos];
          var lval := StrToL(nnn[..innn]);
          if !(-0x8000_0000 <= lval < 0x8000_0000) {
            return TErr;
          }
          mode := WaitOperator;
          return if count != 0 && c == '\0' then TErr else TVal(lval);
        }
        pos := pos + 1;
      }
    }

    /** gettoken: one pass of the state machine. */
    method Scan() returns (tok: Token)
      requires pos <= |buf| && !mode.WaitEndOperand?
      modifies this`pos, this`mode, this`count
      ensures tok == NextToken(buf, old(pos), old(mode), old(count)).tok
      ensures !tok.TErr? ==> Lexed(tok, pos, mode, count) == NextToken(buf, old(pos), old(mode), old(count))
    {
      hide NumberFrom, NextToken;
      ghost var want := NextToken(buf, pos, mode, count);
      while true
        invariant pos <= |buf| && count == old(count) && mode == old(mode)
        invariant want == NextToken(buf, pos, mode, count)
        decreases |buf| - pos
      {
        BlankSteps(buf, pos, mode, count);
        var c := At(buf, pos);
        if mode.WaitOperand? {
          if IsDigit(c) || c == '-' {
            tok := ReadNumber();
            return;
          } else if c == '!' {
            pos := pos + 1;
            return TOpr('!');
          } else if c == '(' {
            count := count + 1;
            pos := pos + 1;
            return TOpen;
          } else if c != ' ' {
            return TErr;
          }
        } else {
          if c == '&' || c == '|' {
            mode := WaitOperand;
            pos := pos + 1;
            return TOpr(c);
          } else if c == ')' {
            pos := pos + 1;
            count := count - 1;
            return if count < 0 then TErr else TClose;
          } else if c == '\0' {
            return if count != 0 then TErr else TEnd;
          } else if c != ' ' {
            return TErr;
          }
        }
        pos := pos + 1;
      }
    }

    /** The next token of the stream. */
    method GetToken() returns (tok: Token)
      requires Valid()
      modifies this
      ensures read == old(read) + [tok]
      ensures tok == Tokens(buf, old(pos), old(mode), old(count))[0]
      ensures tok.TEnd? || tok.TErr? ==> Tokens(buf, 0, WaitOperand, 0) == read
      ensures !tok.TEnd? && !tok.TErr? ==> Valid() && pos > old(pos)
      ensures !tok.TErr? ==> Lexed(tok, pos, mode, count) == NextToken(buf, old(pos), old(mode), old(count))
    {
      ghost var rest := Tokens(buf, pos, mode, count);
      tok := Scan();
      read := read + [tok];
      if !tok.TEnd? && !tok.TErr? {
        assert rest == [tok] + Tokens(buf, pos, mode, count);
      }
    }
  }
}
