/**
 The parser of boolean queries (contrib/intarray/_int_bool.c: makepol): an
 operator-precedence pass with a bounded stack that emits postfix.
 */
module IntQueryParse {
  import opened Wrappers
  import opened IntQuery
  import opened IntQueryLex
  import opened IntQueryGrammar

  const STACKDEPTH: nat := 16

  // ----- how high the operator stack is, read off the tokens -----

  /** How many `!` end the sequence. */
  function BangRun(s: seq<Token>): nat {
    if s != [] && s[|s| - 1] == BANG then BangRun(s[..|s| - 1]) + 1 else 0
  }

  /** Whether an `&` precedes the run of `!` at the end. */
  predicate AmpBefore(s: seq<Token>) {
    s != [] && if s[|s| - 1] == BANG then AmpBefore(s[..|s| - 1]) else s[|s| - 1] == AMP
  }

  /** Whether a `|` occurs in the innermost open group, outside `depth` more groups that
      are closed before it. */
  predicate BarBefore(s: seq<Token>, depth: nat) {
    s != [] &&
    var rest, last := s[..|s| - 1], s[|s| - 1];
    if last == TClose then BarBefore(rest, depth + 1)
    else if last == TOpen then depth > 0 && BarBefore(rest, depth - 1)
    else (last == BAR && depth == 0) || BarBefore(rest, depth)
  }

  /** The operators that wait for the next operand: the `!` in front of it, the `&` before
      those, and one `|` of its group. */
  function Height(s: seq<Token>): nat {
    BangRun(s) + (if AmpBefore(s) then 1 else 0) + (if BarBefore(s, 0) then 1 else 0)
  }

  /** A `!` at or after position n finds the stack full. */
  ghost predicate OverflowsFrom(n: nat, ts: seq<Token>) {
    exists i :: n <= i < |ts| && FullAt(ts, i)
  }

  ghost predicate FullAt(ts: seq<Token>, i: nat)
    requires i < |ts|
  {
    ts[i] == BANG && Height(ts[..i]) >= STACKDEPTH
  }

  ghost predicate Overflows(ts: seq<Token>) {
    OverflowsFrom(0, ts)
  }

  /** The stack can overflow only in a run of at least 15 consecutive `!`, and a run of 17
      always overflows it. */
  lemma {:induction false} OverflowNeedsBangs(ts: seq<Token>, i: nat)
    requires i < |ts| && ts[i] == BANG
    ensures FullAt(ts, i) ==> BangRun(ts[..i + 1]) >= 15
    ensures BangRun(ts[..i + 1]) >= 17 ==> FullAt(ts, i)
  {
    assert ts[..i + 1][..i] == ts[..i];
  }

  lemma {:induction false} OverflowExtends(n: nat, s: seq<Token>, t: Token)
    requires n <= |s|
    ensures OverflowsFrom(n, s + [t]) <==> OverflowsFrom(n, s) || (t == BANG && Height(s) >= STACKDEPTH)
  {
    var s' := s + [t];
    assert s'[..|s|] == s;
    forall i | 0 <= i < |s|
      ensures s'[..i] == s[..i] && FullAt(s', i) == FullAt(s, i)
    {
    }
    if OverflowsFrom(n, s) {
      var i :| n <= i < |s| && FullAt(s, i);
      assert FullAt(s', i);
    }
    if t == BANG && Height(s) >= STACKDEPTH {
      assert FullAt(s', |s|);
    }
  }

  lemma {:induction false} OverflowSplits(n: nat, m: nat, s: seq<Token>)
    requires n <= m <= |s|
    ensures OverflowsFrom(n, s) <==> OverflowsFrom(n, s[..m]) || OverflowsFrom(m, s)
  {
    forall i | 0 <= i < m
      ensures s[..m][..i] == s[..i] && FullAt(s[..m], i) == FullAt(s, i)
    {
    }
    if OverflowsFrom(n, s[..m]) {
      var i :| n <= i < m && FullAt(s[..m], i);
      assert FullAt(s, i);
    }
    if OverflowsFrom(n, s) {
      var i :| n <= i < |s| && FullAt(s, i);
      if i < m {
        assert FullAt(s[..m], i);
      }
    }
  }

  lemma {:induction false} OverflowInside(r0: seq<Token>, r: seq<Token>, r': seq<Token>)
    requires r0 <= r && r + [TOpen] <= r' && !OverflowsFrom(|r0|, r)
    ensures r0 <= r' && |r0| <= |r| + 1 <= |r'|
    ensures OverflowsFrom(|r0|, r') <==> OverflowsFrom(|r| + 1, r')
  {
    OverflowExtends(|r0|, r, TOpen);
    OverflowSplits(|r0|, |r| + 1, r');
    assert r'[..|r| + 1] == r + [TOpen];
  }

  // ----- a frame and the tokens read for it -----

  /** The tokens r, read since r0, are those of the frame f, no `!` among them found the
      stack full, and the stack height they imply is that of the frame. */
  ghost predicate Tracks(r0: seq<Token>, r: seq<Token>, f: Frame, waiting: bool) {
    && r == r0 + FrameYield(f, waiting)
    && !OverflowsFrom(|r0|, r)
    && BarBefore(r, 0) == f.ors.Some?
    && (forall k: nat | k >= 1 :: BarBefore(r, k) == BarBefore(r0, k))
    && (if waiting then BangRun(r) == f.bangs && AmpBefore(r) == f.conj.Some?
        else f.conj.Some? && f.bangs == 0)
  }

  /** A group starts at the beginning of the text or after an opening parenthesis. */
  predicate GroupStart(r: seq<Token>) {
    r == [] || r[|r| - 1] == TOpen
  }

  lemma {:induction false} TracksStart(r0: seq<Token>)
    requires GroupStart(r0)
    ensures Tracks(r0, r0, EMPTY, true)
    ensures FrameOut(EMPTY) == [] && FrameStack(EMPTY, true) == []
  {
    assert FrameYield(EMPTY, true) == [];
    assert r0 + [] == r0;
  }

  /** One more token that is no parenthesis. */
  lemma {:induction false} LastToken(r: seq<Token>, t: Token)
    requires t != TOpen && t != TClose
    ensures (r + [t])[..|r|] == r
    ensures forall k: nat :: BarBefore(r + [t], k) == ((t == BAR && k == 0) || BarBefore(r, k))
    ensures BangRun(r + [t]) == if t == BANG then BangRun(r) + 1 else 0
    ensures AmpBefore(r + [t]) == if t == BANG then AmpBefore(r) else t == AMP
  {
    assert (r + [t])[..|r|] == r;
  }

  lemma {:induction false} HeightOf(r0: seq<Token>, r: seq<Token>, f: Frame)
    requires Tracks(r0, r, f, true)
    ensures Height(r) == |FrameStack(f, true)| && |r0| <= |r|
  {
  }

  lemma {:induction false} TracksBang(r0: seq<Token>, r: seq<Token>, f: Frame)
    requires Tracks(r0, r, f, true) && |FrameStack(f, true)| < STACKDEPTH
    ensures Tracks(r0, r + [BANG], f.(bangs := f.bangs + 1), true)
  {
    hide FrameYield, FrameStack;
    HeightOf(r0, r, f);
    LastToken(r, BANG);
    OverflowExtends(|r0|, r, BANG);
    BangSteps(f);
    assert r0 + (FrameYield(f, true) + [BANG]) == r + [BANG];
  }

  lemma {:induction false} TracksAmp(r0: seq<Token>, r: seq<Token>, f: Frame)
    requires Tracks(r0, r, f, false)
    ensures Tracks(r0, r + [AMP], f, true)
  {
    hide FrameYield;
    LastToken(r, AMP);
    OverflowExtends(|r0|, r, AMP);
    AmpSteps(f);
    assert r0 + (FrameYield(f, false) + [AMP]) == r + [AMP];
  }

  lemma {:induction false} TracksBar(r0: seq<Token>, r: seq<Token>, f: Frame)
    requires Tracks(r0, r, f, false)
    ensures Tracks(r0, r + [BAR], Alternative(f), true)
  {
    hide FrameYield;
    LastToken(r, BAR);
    OverflowExtends(|r0|, r, BAR);
    AlternativeSteps(f);
    assert r0 + (FrameYield(f, false) + [BAR]) == r + [BAR];
  }

  lemma {:induction false} TracksVal(r0: seq<Token>, r: seq<Token>, f: Frame, v: int32)
    requires Tracks(r0, r, f, true)
    ensures Tracks(r0, r + [TVal(v)], Operand(f, Num(v)), false)
  {
    hide FrameYield;
    LastToken(r, TVal(v));
    OverflowExtends(|r0|, r, TVal(v));
    OperandYield(f, Num(v));
    assert r0 + (FrameYield(f, true) + [TVal(v)]) == r + [TVal(v)];
  }

  /** A whole group, read by a call of its own. */
  lemma {:induction false} TracksGroup(r0: seq<Token>, r: seq<Token>, f: Frame, inner: Frame, r': seq<Token>)
    requires Tracks(r0, r, f, true)
    requires Tracks(r + [TOpen], r', inner, false)
    ensures Tracks(r0, r' + [TClose], Operand(f, Group(Complete(inner))), false)
  {
    hide FrameYield, FrameStack;
    var p := Group(Complete(inner));
    var all := r' + [TClose];
    OperandYield(f, p);
    CompleteSteps(inner);
    assert all == r0 + (FrameYield(f, true) + YieldPrim(p));
    assert all[..|r'|] == r';
    assert (r + [TOpen])[..|r|] == r;
    OverflowExtends(|r0|, r', TClose);
    OverflowExtends(|r0|, r, TOpen);
    OverflowSplits(|r0|, |r| + 1, r');
    assert r'[..|r| + 1] == r + [TOpen];
    forall k: nat
      ensures BarBefore(all, k) == BarBefore(r, k)
    {
      assert BarBefore(all, k) == BarBefore(r', k + 1) == BarBefore(r + [TOpen], k + 1);
    }
  }

  lemma {:induction false} TracksDisj(r0: seq<Token>, r: seq<Token>, f: Frame, d: Disj)
    requires Tracks(r0, r, f, true)
    requires Tracks(r + [TOpen], r + [TOpen] + YieldDisj(d), FrameOf(d), false)
    ensures Tracks(r0, r + [TOpen] + YieldDisj(d) + [TClose], Operand(f, Group(d)), false)
  {
    hide Tracks, YieldDisj;
    TracksGroup(r0, r, f, FrameOf(d), r + [TOpen] + YieldDisj(d));
  }

  // ----- makepol -----

  function Reversed<T>(s: seq<T>): seq<T> {
    if s == [] then [] else Reversed(s[1..]) + [s[0]]
  }

  /** How a call of makepol ends. */
  datatype Outcome = Done | SyntaxError | TooComplex

  lemma {:induction false} StackReleased(f: Frame)
    ensures var s, r, b := FrameStack(f, true), Released(f), if f.ors.Some? then 1 else 0;
      && |s| == b + |r|
      && (b == 1 ==> s[0] == '|')
      && forall k | 0 <= k < |r| :: r[k] == NOpr(s[|s| - 1 - k]) && s[|s| - 1 - k] in {'!', '&'}
  {
    CopiesAt(f.bangs, '!');
    CopiesAt(f.bangs, NOpr('!'));
  }

  lemma {:induction false} CopiesAt<T>(n: nat, x: T)
    ensures forall k | 0 <= k < n :: Copies(n, x)[k] == x
  {
    if n > 0 {
      CopiesAt(n - 1, x);
    }
  }

  /** Which tokens can come in which mode, and what they do to mode and nesting. */
  lemma {:induction false} TokenModes(buf: string, pos: nat, mode: Mode, count: int)
    requires !mode.WaitEndOperand? && pos <= |buf|
    ensures var r := NextToken(buf, pos, mode, count);
      && (r.tok.TVal? ==> mode == WaitOperand && r.mode == WaitOperator && r.count == count)
      && (r.tok.TOpr? ==> r.mode == WaitOperand && r.count == count)
      && (r.tok.TOpr? ==> if mode == WaitOperand then r.tok == BANG else r.tok == AMP || r.tok == BAR)
      && (r.tok.TOpen? ==> mode == WaitOperand && r.mode == WaitOperand && r.count == count + 1)
      && (r.tok.TClose? ==> mode == WaitOperator && r.mode == WaitOperator && r.count == count - 1 >= 0)
      && (r.tok.TEnd? ==> mode == WaitOperator && count == 0)
  {
    hide StrToL;
  }

  /** The stack after an operand, and after the `|` that follows one. */
  lemma {:induction false} StackShapes(f: Frame, p: Prim)
    ensures FrameStack(Operand(f, p), false) == if f.ors.Some? then ['|'] else []
    ensures f.bangs == 0 ==> FrameStack(f, false) == if f.ors.Some? then ['|'] else []
    ensures f.conj.Some? ==> FrameStack(Alternative(f), true) == ['|']
    ensures Postfix(ExprPrim(p)) == match p case Num(v) => [NVal(v)] case Group(d) => Postfix(ExprDisj(d))
  {
  }

  lemma {:induction false} GroupNodes(d: Disj)
    ensures Postfix(ExprPrim(Group(d))) == Postfix(ExprDisj(d))
  {
  }

  lemma {:induction false} NoOverflowYet(r0: seq<Token>, r: seq<Token>, f: Frame, waiting: bool)
    requires Tracks(r0, r, f, waiting)
    ensures !OverflowsFrom(|r0|, r)
  {
  }

  lemma {:induction false} TracksOperand(r0: seq<Token>, r: seq<Token>, f: Frame)
    requires Tracks(r0, r, f, false)
    ensures f.conj.Some? && f.bangs == 0 && r == r0 + YieldDisj(Complete(f))
    ensures !OverflowsFrom(|r0|, r)
    ensures FrameOf(Complete(f)) == f
  {
    hide YieldDisj;
    CompleteSteps(f);
  }

  /** The parser part of WORKSTATE: the emitted nodes, newest first. */
  class Parser {
    const lex: Lexer
    var str: seq<Node>
    var num: nat

    constructor (text: string)
      ensures fresh(lex) && lex.buf == text && lex.Valid() && lex.read == []
      ensures lex.mode == WaitOperand && lex.count == 0 && str == [] && num == 0
    {
      lex := new Lexer(text);
      str := [];
      num := 0;
    }

    ghost function Emitted(): seq<Node>
      reads this
    {
      Reversed(str)
    }

    /** pushquery. */
    method Push(node: Node)
      requires num == |str|
      modifies this
      ensures num == |str|
      ensures Emitted() == old(Emitted()) + [node]
    {
      str := [node] + str;
      num := num + 1;
      assert str[1..] == old(str);
    }

    /** After an operand: pop every `&` and `!` from the top of the stack. */
    method PopTight(stack: array<char>, len: nat, ghost f: Frame) returns (len': nat)
      requires len <= stack.Length && stack[..len] == FrameStack(f, true) && num == |str|
      modifies this
      ensures len' <= len && num == |str|
      ensures stack[..len'] == if f.ors.Some? then ['|'] else []
      ensures Emitted() == old(Emitted()) + Released(f)
    {
      StackReleased(f);
      hide FrameStack, Released;
      ghost var r, b := Released(f), if f.ors.Some? then 1 else 0;
      len' := len;
      assert len > b ==> r[0] == NOpr(stack[..len][len - 1]);
      while len' > 0 && (stack[len' - 1] == '&' || stack[len' - 1] == '!')
        invariant |r| == len - b && b <= len' <= len
        invariant len' > b ==> stack[len' - 1] == '&' || stack[len' - 1] == '!'
        invariant Emitted() == old(Emitted()) + r[..len - len']
        invariant num == |str|
      {
        assert stack[len' - 1] == stack[..len][len' - 1];
        assert len' > b;
        assert r[len - len'] == NOpr(stack[len' - 1]);
        len' := len' - 1;
        Push(NOpr(stack[len']));
        assert r[..len - len'] == r[..len - len' - 1] + [r[len - len' - 1]];
        assert len' > b ==> r[len - len'] == NOpr(stack[..len][len' - 1]);
      }
      assert r[..|r|] == r;
      assert b == 1 ==> stack[0] == stack[..len][0];
    }

    /** The VAL and OPEN cases of makepol, once the operand has been emitted. */
    method OnOperand(stack: array<char>, len: nat, ghost e0: seq<Node>, ghost f: Frame, ghost p: Prim)
      returns (len': nat)
      requires len <= stack.Length && stack[..len] == FrameStack(f, true) && num == |str|
      requires Emitted() == e0 + FrameOut(f) + Postfix(ExprPrim(p))
      modifies this
      ensures len' <= len && num == |str|
      ensures stack[..len'] == FrameStack(Operand(f, p), false)
      ensures Emitted() == e0 + FrameOut(Operand(f, p))
    {
      hide FrameStack, FrameOut, Released, Reversed, Postfix, ExprPrim;
      len' := PopTight(stack, len, f);
      OperandOut(f, p);
      StackShapes(f, p);
    }

    /** At the end of a group: pop everything, which is at most one `|`. */
    method PopAll(stack: array<char>, len: nat, ghost f: Frame)
      requires len <= stack.Length && stack[..len] == FrameStack(f, false) && f.bangs == 0
      requires num == |str|
      modifies this
      ensures num == |str|
      ensures Emitted() == old(Emitted()) + (if f.ors.Some? then [NOpr('|')] else [])
    {
      var n := len;
      assert len > 0 ==> stack[0] == stack[..len][0];
      while n > 0
        invariant 0 <= n <= len
        invariant Emitted() == if n == len then old(Emitted()) else old(Emitted()) + [NOpr('|')]
        invariant num == |str|
      {
        n := n - 1;
        Push(NOpr(stack[n]));
      }
    }

    /** The VAL case of makepol. */
    method OnValue(stack: array<char>, len: nat, v: int32,
                   ghost e0: seq<Node>, ghost r0: seq<Token>, ghost r: seq<Token>, ghost f: Frame)
      returns (len': nat)
      requires len <= stack.Length && stack[..len] == FrameStack(f, true) && num == |str|
      requires Tracks(r0, r, f, true) && Emitted() == e0 + FrameOut(f)
      modifies this
      ensures len' <= len && num == |str|
      ensures stack[..len'] == FrameStack(Operand(f, Num(v)), false)
      ensures Emitted() == e0 + FrameOut(Operand(f, Num(v)))
      ensures Tracks(r0, r + [TVal(v)], Operand(f, Num(v)), false)
    {
      hide Tracks, FrameYield, FrameStack, FrameOut, Reversed, Postfix;
      StackShapes(f, Num(v));
      Push(NVal(v));
      len' := OnOperand(stack, len, e0, f, Num(v));
      TracksVal(r0, r, f, v);
    }

    /** The CLOSE and END cases of makepol. */
    method OnGroupEnd(stack: array<char>, len: nat, ghost e0: seq<Node>, ghost f: Frame) returns (ghost d: Disj)
      requires len <= stack.Length && stack[..len] == FrameStack(f, false) && f.bangs == 0 && f.conj.Some?
      requires num == |str| && Emitted() == e0 + FrameOut(f)
      modifies this
      ensures num == |str| && d == Complete(f) && Emitted() == e0 + Postfix(ExprDisj(d))
    {
      hide FrameYield, FrameStack, FrameOut, Reversed, Postfix, ExprDisj, Complete;
      PopAll(stack, len, f);
      CompleteSteps(f);
      d := Complete(f);
    }

    /** The OPR case of makepol: a `|` that finds an operator on the stack is emitted at
        once, anything else is pushed if there is room. */
    method OnOperator(stack: array<char>, len: nat, c: char,
                      ghost e0: seq<Node>, ghost r0: seq<Token>, ghost r: seq<Token>, ghost f: Frame)
      returns (full: bool, len': nat, ghost f': Frame)
      requires len <= stack.Length == STACKDEPTH && stack[..len] == FrameStack(f, c == '!') && num == |str|
      requires c == '!' || c == '&' || c == '|'
      requires Tracks(r0, r, f, c == '!') && Emitted() == e0 + FrameOut(f)
      modifies this, stack
      ensures num == |str|
      ensures full ==> OverflowsFrom(|r0|, r + [TOpr(c)])
      ensures !full ==>
        && Tracks(r0, r + [TOpr(c)], f', true) && Emitted() == e0 + FrameOut(f')
        && len' <= STACKDEPTH && stack[..len'] == FrameStack(f', true)
    {
      hide Tracks, FrameYield, FrameStack, FrameOut, OverflowsFrom, Reversed;
      full, len', f' := false, len, f;
      StackShapes(f, Num(0));
      if c != '!' {
        TracksOperand(r0, r, f);
      }
      if len > 0 && c == '|' {
        Push(NOpr('|'));
        TracksBar(r0, r, f);
        AlternativeSteps(f);
        f' := Alternative(f);
      } else {
        if len == STACKDEPTH {
          HeightOf(r0, r, f);
          OverflowExtends(|r0|, r, TOpr(c));
          full := true;
          return;
        }
        ghost var below := stack[..len];
        stack[len] := c;
        len' := len + 1;
        assert stack[..len'] == below + [c];
        if c == '!' {
          TracksBang(r0, r, f);
          BangSteps(f);
          f' := f.(bangs := f.bangs + 1);
        } else if c == '&' {
          TracksAmp(r0, r, f);
          AmpSteps(f);
        } else {
          TracksBar(r0, r, f);
          AlternativeSteps(f);
          f' := Alternative(f);
        }
      }
    }

    /** makepol: reads one group and emits its postfix. It ends with a syntax error only
        on an error token, and with "statement too complex" only when a `!` finds sixteen
        operators waiting. */
    method MakePol() returns (o: Outcome, ghost d: Disj)
      requires lex.Valid() && lex.mode == WaitOperand && lex.count >= 0
      requires GroupStart(lex.read) && num == |str|
      modifies this, lex
      ensures num == |str|
      ensures old(lex.read) <= lex.read <= Tokens(lex.buf, 0, WaitOperand, 0)
      ensures o.Done? ==>
        && !OverflowsFrom(|old(lex.read)|, lex.read)
        && Emitted() == old(Emitted()) + Postfix(ExprDisj(d))
      ensures o.Done? && old(lex.count) == 0 ==>
        lex.read == Tokens(lex.buf, 0, WaitOperand, 0) == old(lex.read) + YieldDisj(d) + [TEnd]
      ensures o.Done? && old(lex.count) > 0 ==>
        && lex.Valid() && lex.mode == WaitOperator && lex.count == old(lex.count) - 1
        && lex.pos > old(lex.pos)
        && lex.read == old(lex.read) + YieldDisj(d) + [TClose]
        && Tracks(old(lex.read), old(lex.read) + YieldDisj(d), FrameOf(d), false)
      ensures o.SyntaxError? ==>
        && lex.read == Tokens(lex.buf, 0, WaitOperand, 0)
        && lex.read[|lex.read| - 1] == TErr && !OverflowsFrom(|old(lex.read)|, lex.read)
      ensures o.TooComplex? ==> OverflowsFrom(|old(lex.read)|, lex.read)
      decreases |lex.buf| - lex.pos
    {
      hide Tracks, FrameYield, FrameStack, FrameOut, Released, Tokens, NextToken, OverflowsFrom,
        Height, YieldDisj, ExprDisj, Postfix, Complete, FrameOf, Reversed;
      ghost var f := EMPTY;
      ghost var r0 := lex.read;
      var stack := new char[STACKDEPTH];
      var lenstack: nat := 0;
      TracksStart(r0);
      d := Single(One(Factor(0, Num(0))));
      assert Emitted() == old(Emitted()) + FrameOut(f);
      while true
        invariant lex.Valid() && lex.count == old(lex.count) && lex.pos >= old(lex.pos)
        invariant num == |str|
        invariant r0 <= lex.read
        invariant lenstack <= STACKDEPTH && fresh(stack) && stack.Length == STACKDEPTH
        invariant Tracks(r0, lex.read, f, lex.mode == WaitOperand)
        invariant stack[..lenstack] == FrameStack(f, lex.mode == WaitOperand)
        invariant Emitted() == old(Emitted()) + FrameOut(f)
        decreases |lex.buf| - lex.pos
      {
        ghost var waiting, r := lex.mode == WaitOperand, lex.read;
        TokenModes(lex.buf, lex.pos, lex.mode, lex.count);
        NoOverflowYet(r0, r, f, waiting);
        if !waiting {
          TracksOperand(r0, r, f);
        }
        var tok := lex.GetToken();
        match tok
        case TVal(v) =>
          lenstack := OnValue(stack, lenstack, v, old(Emitted()), r0, r, f);
          f := Operand(f, Num(v));
        case TOpr(c) =>
          var full;
          full, lenstack, f := OnOperator(stack, lenstack, c, old(Emitted()), r0, r, f);
          if full {
            return TooComplex, d;
          }
        case TOpen =>
          ghost var inner;
          o, inner := MakePol();
          if !o.Done? {
            OverflowInside(r0, r, lex.read);
            return o, d;
          }
          GroupNodes(inner);
          lenstack := OnOperand(stack, lenstack, old(Emitted()), f, Group(inner));
          TracksDisj(r0, r, f, inner);
          f := Operand(f, Group(inner));
        case TClose =>
          d := OnGroupEnd(stack, lenstack, old(Emitted()), f);
          OverflowExtends(|r0|, r, TClose);
          return Done, d;
        case TEnd =>
          d := OnGroupEnd(stack, lenstack, old(Emitted()), f);
          OverflowExtends(|r0|, r, TEnd);
          return Done, d;
        case TErr =>
          OverflowExtends(|r0|, r, TErr);
          return SyntaxError, d;
      }
    }
  }
}
