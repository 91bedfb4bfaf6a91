/**
 Reading back a printed boolean query: it is always accepted, means the same on every
 array, prints the same again, and differs only in how `&` associates.
 */
module IntQueryRoundTrip {
  import opened Wrappers
  import opened IntQuery
  import opened IntQueryLex
  import opened IntQueryGrammar
  import opened IntQueryParse
  import opened IntQueryInput
  import opened IntQueryPrint

  // ----- lexing the printed text -----

  lemma {:induction false} HoldsSplit<T>(s: seq<T>, pos: nat, a: seq<T>, b: seq<T>)
    requires HoldsAt(s, pos, a + b)
    ensures HoldsAt(s, pos, a) && HoldsAt(s, pos + |a|, b)
  {
    var t := a + b;
    assert forall k | 0 <= k < |a| :: t[k] == a[k];
    forall k {:trigger b[k]} | 0 <= k < |b|
      ensures s[pos + |a| + k] == b[k]
    {
      assert t[|a| + k] == b[k];
    }
  }

  lemma {:induction false} BlankToken(buf: string, pos: nat, mode: Mode, count: int)
    requires !mode.WaitEndOperand? && pos < |buf| && buf[pos] == ' '
    ensures Tokens(buf, pos, mode, count) == Tokens(buf, pos + 1, mode, count)
  {
    BlankSteps(buf, pos, mode, count);
  }

  lemma {:induction false} SignToken(buf: string, pos: nat, mode: Mode, count: int)
    requires !mode.WaitEndOperand? && pos < |buf|
    ensures mode == WaitOperand && buf[pos] == '!' ==>
              Tokens(buf, pos, mode, count) == [BANG] + Tokens(buf, pos + 1, WaitOperand, count)
    ensures mode == WaitOperand && buf[pos] == '(' ==>
              Tokens(buf, pos, mode, count) == [TOpen] + Tokens(buf, pos + 1, WaitOperand, count + 1)
    ensures mode == WaitOperator && buf[pos] in {'&', '|'} ==>
              Tokens(buf, pos, mode, count) == [TOpr(buf[pos])] + Tokens(buf, pos + 1, WaitOperand, count)
    ensures mode == WaitOperator && buf[pos] == ')' && count >= 1 ==>
              Tokens(buf, pos, mode, count) == [TClose] + Tokens(buf, pos + 1, WaitOperator, count - 1)
  {
    BlankSteps(buf, pos, mode, count);
  }

  /** What may come after an operand: no digit, and not the end inside parentheses. */
  predicate Follows(buf: string, pos: nat, count: int) {
    !IsDigit(At(buf, pos)) && (count == 0 || At(buf, pos) != '\0')
  }

  lemma {:induction false} SkipsDigits(buf: string, p: nat, q: nat)
    requires p <= q <= |buf| && forall k | p <= k < q :: IsDigit(buf[k])
    requires !IsDigit(At(buf, q))
    ensures SkipDigits(buf, p) == q
    decreases q - p
  {
    if p < q {
      SkipsDigits(buf, p + 1, q);
    }
  }

  lemma {:induction false} NumberTokens(buf: string, pos: nat, v: int32, count: int)
    requires HoldsAt(buf, pos, Decimal(v)) && Follows(buf, pos + |Decimal(v)|, count)
    ensures Tokens(buf, pos, WaitOperand, count)
         == [TVal(v)] + Tokens(buf, pos + |Decimal(v)|, WaitOperator, count)
  {
    var s := Decimal(v);
    var end := pos + |s|;
    var n: nat := if v < 0 then -(v as int) else v;
    DigitsOnly(n);
    NumberRoundTrip(v);
    assert forall k | 0 <= k < |s| :: buf[pos + k] == s[k];
    assert buf[pos..end] == s;
    assert buf[pos] == s[0];
    forall k | pos + 1 <= k < end
      ensures IsDigit(buf[k])
    {
      assert buf[pos + (k - pos)] == s[k - pos];
    }
    SkipsDigits(buf, pos + 1, end);
    BlankSteps(buf, pos, WaitOperand, count);
    hide StrToL;
    assert NumberToken(buf, pos, end, count) == TVal(v);
  }

  /** A parenthesised text whose inside lexes as `inner`. */
  lemma {:induction false} ParensTokens(buf: string, pos: nat, s: string, inner: seq<Token>, count: nat)
    requires HoldsAt(buf, pos, Parens(s))
    requires Tokens(buf, pos + 2, WaitOperand, count + 1)
          == inner + Tokens(buf, pos + 2 + |s|, WaitOperator, count + 1)
    ensures Tokens(buf, pos, WaitOperand, count)
         == [TOpen] + inner + [TClose] + Tokens(buf, pos + |Parens(s)|, WaitOperator, count)
  {
    hide Tokens;
    var t := Parens(s);
    assert buf[pos + 0] == t[0] && buf[pos + 1] == t[1];
    assert buf[pos + (|s| + 2)] == t[|s| + 2] && buf[pos + (|s| + 3)] == t[|s| + 3];
    SignToken(buf, pos, WaitOperand, count);
    BlankToken(buf, pos + 1, WaitOperand, count + 1);
    BlankToken(buf, pos + 2 + |s|, WaitOperator, count + 1);
    SignToken(buf, pos + 3 + |s|, WaitOperator, count + 1);
  }

  /** " & " or " | " between two operands. */
  lemma {:induction false} SeparatorTokens(buf: string, pos: nat, op: BinOp, count: int)
    requires HoldsAt(buf, pos, [' ', op.Sign(), ' '])
    ensures Tokens(buf, pos, WaitOperator, count)
         == [TOpr(op.Sign())] + Tokens(buf, pos + 3, WaitOperand, count)
  {
    var t := [' ', op.Sign(), ' '];
    assert buf[pos + 0] == t[0] && buf[pos + 1] == t[1] && buf[pos + 2] == t[2];
    BlankToken(buf, pos, WaitOperator, count);
    SignToken(buf, pos + 1, WaitOperator, count);
    BlankToken(buf, pos + 2, WaitOperand, count);
  }

  /** The printed text of an expression, anywhere in a text, lexes as its parse tree's yield. */
  lemma {:induction false} RenderTokens(buf: string, pos: nat, e: Expr, first: bool, count: nat)
    requires HoldsAt(buf, pos, Render(e, first)) && Follows(buf, pos + |Render(e, first)|, count)
    ensures Tokens(buf, pos, WaitOperand, count)
         == RenderYield(e, first) + Tokens(buf, pos + |Render(e, first)|, WaitOperator, count)
    decreases e, 1
  {
    hide Tokens, RenderYield;
    match e
    case Val(v) =>
      YieldOfVal(v, first);
      NumberTokens(buf, pos, v, count);
    case Not(x) =>
      NotTokens(buf, pos, x, first, count);
    case Bin(op, l, r) =>
      YieldOfBin(op, l, r, first);
      var body := Render(l, false) + [' ', op.Sign(), ' '] + Render(r, false);
      if op.Or? && !first {
        ParensHolds(buf, pos, body);
        BinaryTokens(buf, pos + 2, op, l, r, count + 1);
        ParensTokens(buf, pos, body, RenderYield(l, false) + [TOpr(op.Sign())] + RenderYield(r, false), count);
      } else {
        BinaryTokens(buf, pos, op, l, r, count);
      }
  }

  lemma {:induction false} ParensHolds(buf: string, pos: nat, s: string)
    requires HoldsAt(buf, pos, Parens(s))
    ensures HoldsAt(buf, pos + 2, s) && At(buf, pos + 2 + |s|) == ' '
  {
    assert Parens(s) == "( " + (s + " )");
    HoldsSplit(buf, pos, "( ", s + " )");
    HoldsSplit(buf, pos + 2, s, " )");
    assert buf[pos + 2 + |s| + 0] == " )"[0];
  }

  lemma {:induction false} BangTokens(buf: string, pos: nat, tail: string, ys: seq<Token>, count: nat)
    requires HoldsAt(buf, pos, "!" + tail)
    requires Tokens(buf, pos + 1, WaitOperand, count) == ys + Tokens(buf, pos + 1 + |tail|, WaitOperator, count)
    ensures Tokens(buf, pos, WaitOperand, count)
         == [BANG] + ys + Tokens(buf, pos + |"!" + tail|, WaitOperator, count)
  {
    hide Tokens;
    assert buf[pos + 0] == ("!" + tail)[0];
    SignToken(buf, pos, WaitOperand, count);
  }

  lemma {:induction false} NotTokens(buf: string, pos: nat, x: Expr, first: bool, count: nat)
    requires HoldsAt(buf, pos, Render(Not(x), first)) && Follows(buf, pos + |Render(Not(x), first)|, count)
    ensures Tokens(buf, pos, WaitOperand, count)
         == RenderYield(Not(x), first) + Tokens(buf, pos + |Render(Not(x), first)|, WaitOperator, count)
    decreases x, 3
  {
    hide Tokens, RenderYield;
    YieldOfNot(x, first);
    if x.Val? {
      var tail := Decimal(x.v);
      assert Render(Not(x), first) == "!" + tail;
      hide Render, Decimal;
      HoldsSplit(buf, pos, "!", tail);
      NumberTokens(buf, pos + 1, x.v, count);
      BangTokens(buf, pos, tail, [TVal(x.v)], count);
    } else {
      var tail := Parens(Render(x, true));
      assert Render(Not(x), first) == "!" + tail;
      hide Render;
      HoldsSplit(buf, pos, "!", tail);
      GroupTokens(buf, pos + 1, x, count);
      BangTokens(buf, pos, tail, [TOpen] + RenderYield(x, true) + [TClose], count);
    }
  }

  lemma {:induction false} GroupTokens(buf: string, pos: nat, x: Expr, count: nat)
    requires HoldsAt(buf, pos, Parens(Render(x, true)))
    ensures Tokens(buf, pos, WaitOperand, count)
         == [TOpen] + RenderYield(x, true) + [TClose]
            + Tokens(buf, pos + |Parens(Render(x, true))|, WaitOperator, count)
    decreases x, 2
  {
    hide Tokens, RenderYield, Render;
    ParensHolds(buf, pos, Render(x, true));
    RenderTokens(buf, pos + 2, x, true, count + 1);
    ParensTokens(buf, pos, Render(x, true), RenderYield(x, true), count);
  }

  lemma {:induction false} BinaryTokens(buf: string, pos: nat, op: BinOp, l: Expr, r: Expr, count: nat)
    requires var body := Render(l, false) + [' ', op.Sign(), ' '] + Render(r, false);
             HoldsAt(buf, pos, body) && Follows(buf, pos + |body|, count)
    ensures var end := pos + |Render(l, false) + [' ', op.Sign(), ' '] + Render(r, false)|;
            Tokens(buf, pos, WaitOperand, count) ==
              RenderYield(l, false) + [TOpr(op.Sign())] + RenderYield(r, false) + Tokens(buf, end, WaitOperator, count)
    decreases Bin(op, l, r), 0
  {
    var a, m, b := Render(l, false), [' ', op.Sign(), ' '], Render(r, false);
    hide Tokens, RenderYield, Render;
    HoldsSplit(buf, pos, a + m, b);
    HoldsSplit(buf, pos, a, m);
    assert buf[pos + |a| + 0] == m[0];
    RenderTokens(buf, pos, l, false, count);
    SeparatorTokens(buf, pos + |a|, op, count);
    RenderTokens(buf, pos + |a| + 3, r, false, count);
  }

  // ----- the operator stack stays low -----

  /** No two `!` in a row, and no `!` at the end. */
  ghost predicate Spaced(s: seq<Token>) {
    && (forall i | 0 < i < |s| && s[i] == BANG :: s[i - 1] != BANG)
    && (s != [] ==> s[|s| - 1] != BANG)
  }

  lemma {:induction false} SpacedConcat(a: seq<Token>, b: seq<Token>)
    requires Spaced(a) && Spaced(b)
    ensures Spaced(a + b)
  {
    var s := a + b;
    forall i | 0 < i < |s| && s[i] == BANG
      ensures s[i - 1] != BANG
    {
    }
  }

  lemma {:induction false} SpacedParens(s: seq<Token>)
    requires Spaced(s)
    ensures Spaced([TOpen] + s + [TClose]) && Spaced([BANG] + ([TOpen] + s + [TClose]))
  {
    SpacedConcat([TOpen], s);
    SpacedConcat([TOpen] + s, [TClose]);
  }

  lemma {:induction false} RenderSpaced(e: Expr, first: bool)
    ensures Spaced(RenderYield(e, first))
  {
    hide RenderYield;
    match e
    case Val(v) => YieldOfVal(v, first);
    case Not(x) =>
      YieldOfNot(x, first);
      if !x.Val? {
        RenderSpaced(x, true);
        SpacedParens(RenderYield(x, true));
      }
    case Bin(op, l, r) =>
      YieldOfBin(op, l, r, first);
      RenderSpaced(l, false);
      RenderSpaced(r, false);
      SpacedConcat(RenderYield(l, false), [TOpr(op.Sign())]);
      SpacedConcat(RenderYield(l, false) + [TOpr(op.Sign())], RenderYield(r, false));
      SpacedParens(RenderYield(l, false) + [TOpr(op.Sign())] + RenderYield(r, false));
  }

  lemma {:induction false} SpacedIsLow(s: seq<Token>)
    requires Spaced(s)
    ensures !Overflows(s + [TEnd])
  {
    var ts := s + [TEnd];
    forall i | 0 <= i < |ts|
      ensures !FullAt(ts, i)
    {
      if ts[i] == BANG && i > 0 {
        assert s[i] == BANG;
        assert ts[..i][i - 1] == s[i - 1] != BANG;
      }
    }
  }

  // ----- what is read back -----

  /** Hang the conjunction r under l, keeping the order of the operands. */
  function Graft(l: Expr, r: Expr): Expr {
    if r.Bin? && r.op.And? then Bin(And, Graft(l, r.l), r.r) else Bin(And, l, r)
  }

  /** The expression with every chain of `&` associated to the left. */
  function Reassoc(e: Expr): Expr {
    match e
    case Val(_) => e
    case Not(x) => Not(Reassoc(x))
    case Bin(op, l, r) => if op.And? then Graft(Reassoc(l), Reassoc(r)) else Bin(Or, Reassoc(l), Reassoc(r))
  }

  lemma {:induction false} GraftKeeps(l: Expr, r: Expr, has: int32 -> bool)
    ensures Eval(Graft(l, r), has) == (Eval(l, has) && Eval(r, has))
    ensures Size(Graft(l, r)) == Size(l) + Size(r) + 1
    ensures LinksFit(l) && LinksFit(r) && Size(r) <= 0x7fff ==> LinksFit(Graft(l, r))
    decreases r
  {
    if r.Bin? && r.op.And? {
      GraftKeeps(l, r.l, has);
    }
  }

  /** Re-association keeps the value on every array, the number of items, and links that fit. */
  lemma {:induction false} ReassocKeeps(e: Expr, has: int32 -> bool)
    ensures Eval(Reassoc(e), has) == Eval(e, has)
    ensures Size(Reassoc(e)) == Size(e)
    ensures LinksFit(e) ==> LinksFit(Reassoc(e))
  {
    match e
    case Val(_) =>
    case Not(x) => ReassocKeeps(x, has);
    case Bin(op, l, r) =>
      ReassocKeeps(l, has);
      ReassocKeeps(r, has);
      if op.And? {
        GraftKeeps(Reassoc(l), Reassoc(r), has);
      }
  }

  lemma {:induction false} GraftRender(l: Expr, r: Expr, first: bool)
    ensures Render(Graft(l, r), first) == Render(l, false) + [' ', '&', ' '] + Render(r, false)
    decreases r
  {
    var m := [' ', '&', ' '];
    if r.Bin? && r.op.And? {
      GraftRender(l, r.l, false);
      var a, b, c := Render(l, false), Render(r.l, false), Render(r.r, false);
      assert Render(r, false) == b + m + c;
      assert Render(Graft(l, r), first) == (a + m + b) + m + c;
      assert (a + m + b) + m + c == a + m + (b + m + c);
    }
  }

  /** Re-association does not show in the printed text. */
  lemma {:induction false} ReassocRender(e: Expr, first: bool)
    ensures Render(Reassoc(e), first) == Render(e, first)
    ensures Reassoc(e).Val? <==> e.Val?
  {
    match e
    case Val(_) =>
    case Not(x) =>
      ReassocRender(x, true);
      ReassocRender(x, false);
    case Bin(op, l, r) =>
      ReassocRender(l, false);
      ReassocRender(r, false);
      if op.And? {
        GraftRender(Reassoc(l), Reassoc(r), first);
      }
  }

  ghost predicate IsAnd(e: Expr) {
    e.Bin? && e.op.And?
  }

  /** No factor of the conjunction is itself a bare conjunction. */
  ghost predicate Flat(c: Conj) {
    match c
    case One(f) => !IsAnd(ExprFactor(f))
    case More(c', f) => Flat(c') && !IsAnd(ExprFactor(f))
  }

  lemma {:induction false} ExprAppend(c: Conj, c': Conj)
    requires Flat(c')
    ensures ExprConj(Append(c, c')) == Graft(ExprConj(c), ExprConj(c'))
    ensures Flat(c) ==> Flat(Append(c, c'))
  {
    hide ExprFactor;
    if c'.More? {
      ExprAppend(c, c'.c);
    }
  }

  /** The tree of the printed text denotes the re-associated expression. */
  lemma {:induction false} ExprReadBack(e: Expr)
    ensures ExprDisj(DisjOf(e)) == Reassoc(e)
    ensures ExprConj(ConjOf(e)) == Reassoc(e) && Flat(ConjOf(e))
  {
    match e
    case Val(v) =>
      ExprOfFactor(FactorOf(e));
    case Not(x) =>
      ExprReadBack(x);
      ExprOfFactor(FactorOf(e));
      assert Negate(1, Reassoc(x)) == Not(Negate(0, Reassoc(x)));
      assert ExprFactor(FactorOf(e)) == Not(Reassoc(x));
    case Bin(op, l, r) =>
      ExprReadBack(l);
      ExprReadBack(r);
      if op.And? {
        ExprAppend(ConjOf(l), ConjOf(r));
        assert ConjOf(e) == Append(ConjOf(l), ConjOf(r)) && DisjOf(e) == Single(ConjOf(e));
      } else {
        var d := Alt(Single(ConjOf(l)), ConjOf(r));
        assert ExprDisj(Single(ConjOf(l))) == Reassoc(l);
        assert ExprDisj(d) == Bin(Or, Reassoc(l), Reassoc(r));
        ExprOfFactor(FactorOf(e));
        assert FactorOf(e) == Factor(0, Group(d));
        assert DisjOf(e) == d;
      }
  }

  lemma {:induction false} ExprOfFactor(f: Factor)
    ensures ExprDisj(Single(One(f))) == ExprConj(One(f)) == ExprFactor(f)
    ensures f.bangs == 0 ==> ExprFactor(f) == ExprPrim(f.prim)
  {
  }

  /** The printed text spells the tree of the expression. */
  lemma {:induction false} PrintedSpells(e: Expr)
    ensures Spells(Render(e, true), DisjOf(e))
    ensures !Overflows(TextTokens(Render(e, true)))
  {
    var text := Render(e, true);
    hide Render, Overflows, RenderYield, Spaced;
    RenderTokens(text, 0, e, true, 0);
    assert Tokens(text, |text|, WaitOperator, 0) == [TEnd] by {
      BlankSteps(text, |text|, WaitOperator, 0);
    }
    RenderSpaced(e, true);
    SpacedIsLow(RenderYield(e, true));
    assert RenderYield(e, true) == YieldDisj(DisjOf(e)) by { RenderYieldIs(e); }
  }

  lemma {:induction false} RenderYieldIs(e: Expr)
    ensures RenderYield(e, true) == YieldDisj(DisjOf(e))
  {
  }

  /** Print, then read: every stored query is accepted again. What is stored then is the
      expression with `&` re-associated to the left, with the same number of items; it has
      the same value on every array and prints to the same text. */
  lemma {:induction false} PrintReadRoundTrip(e: Expr, r: Input, has: int32 -> bool)
    requires Size(e) <= MAX_ITEMS
    requires Accepts(Render(e, true), r)
    ensures r == Query(Linked(Reassoc(e)))
    ensures Size(Reassoc(e)) == Size(e)
    ensures Eval(Reassoc(e), has) == Eval(e, has)
    ensures LinksFit(e) ==> LinksFit(Reassoc(e))
    ensures Render(Reassoc(e), true) == Render(e, true)
  {
    hide Spells, Linked, Render, Eval;
    var text := Render(e, true);
    PrintedSpells(e);
    ExprReadBack(e);
    ReassocKeeps(e, has);
    ReassocRender(e, true);
    var d :| Spells(text, d) &&
      r == if Size(ExprDisj(d)) > MAX_ITEMS then SizeProblem else Query(Linked(ExprDisj(d)));
    SpellsOne(text, d, DisjOf(e));
  }

  /** Reading a printed text: it is never too complex and never a syntax error. */
  method ReadRendered(text: string, ghost e: Expr) returns (r: Input)
    requires text == Render(e, true) && Size(e) <= MAX_ITEMS
    ensures r == Query(Linked(Reassoc(e))) && Accepts(text, r)
  {
    hide Linked, Render, TextTokens, Overflows;
    r := ReadQuery(text);
    PrintedSpells(e);
    SpellsEnds(text, DisjOf(e));
    PrintReadRoundTrip(e, r, _ => false);
  }

  /** The same as one program: printing a stored query fails exactly when its text does not fit
      the output buffer, and reading the text never fails. */
  method PrintAndRead(items: seq<Item>, ghost e: Expr) returns (text: Option<string>, r: Option<Input>)
    requires items == Linked(e) && Size(e) <= MAX_ITEMS
    ensures text == if |Render(e, true)| + 1 < TEXT_SIZE then Some(Render(e, true)) else None
    ensures r == if text.Some? then Some(Query(Linked(Reassoc(e)))) else None
    ensures r.Some? ==> Accepts(text.value, r.value)
  {
    hide Linked, Render, Accepts;
    text := PrintQuery(items, e);
    if text.None? {
      return text, None;
    }
    var input := ReadRendered(text.value, e);
    r := Some(input);
  }

  lemma {:induction false} SpellsEnds(text: string, d: Disj)
    requires Spells(text, d)
    ensures TextTokens(text)[|TextTokens(text)| - 1] == TEnd
  {
    hide YieldDisj, TextTokens;
  }
}
