/**
 The grammar of boolean queries, `!` over `&` over `|`, both binary operators left
 associative. A parse tree yields a token sequence and denotes an expression; a frame is
 the part of a tree that an operator-precedence parser has seen of one parenthesised group.
 */
module IntQueryGrammar {
  import opened Wrappers
  import opened IntQuery
  import opened IntQueryLex

  datatype Prim = Num(v: int32) | Group(d: Disj)
  datatype Factor = Factor(bangs: nat, prim: Prim)
  datatype Conj = One(f: Factor) | More(c: Conj, f: Factor)
  datatype Disj = Single(c: Conj) | Alt(d: Disj, c: Conj)

  const BANG := TOpr('!')
  const AMP := TOpr('&')
  const BAR := TOpr('|')

  function Copies<T>(n: nat, x: T): (s: seq<T>)
    ensures |s| == n
  {
    if n == 0 then [] else Copies(n - 1, x) + [x]
  }

  function YieldPrim(p: Prim): seq<Token> {
    match p
    case Num(v) => [TVal(v)]
    case Group(d) => [TOpen] + YieldDisj(d) + [TClose]
  }

  function YieldFactor(f: Factor): seq<Token> {
    Copies(f.bangs, BANG) + YieldPrim(f.prim)
  }

  function YieldConj(c: Conj): seq<Token> {
    match c
    case One(f) => YieldFactor(f)
    case More(c', f) => YieldConj(c') + [AMP] + YieldFactor(f)
  }

  function YieldDisj(d: Disj): seq<Token> {
    match d
    case Single(c) => YieldConj(c)
    case Alt(d', c) => YieldDisj(d') + [BAR] + YieldConj(c)
  }

  function Negate(n: nat, e: Expr): Expr {
    if n == 0 then e else Not(Negate(n - 1, e))
  }

  function ExprPrim(p: Prim): Expr {
    match p
    case Num(v) => Val(v)
    case Group(d) => ExprDisj(d)
  }

  function ExprFactor(f: Factor): Expr {
    Negate(f.bangs, ExprPrim(f.prim))
  }

  function ExprConj(c: Conj): Expr {
    match c
    case One(f) => ExprFactor(f)
    case More(c', f) => Bin(And, ExprConj(c'), ExprFactor(f))
  }

  function ExprDisj(d: Disj): Expr {
    match d
    case Single(c) => ExprConj(c)
    case Alt(d', c) => Bin(Or, ExprDisj(d'), ExprConj(c))
  }

  // ----- frames -----

  /** What has been read of one group: finished alternatives, the conjunction in
      progress, and the negations in front of the next operand. */
  datatype Frame = Frame(ors: Option<Disj>, conj: Option<Conj>, bangs: nat)

  const EMPTY := Frame(None, None, 0)

  function AddFactor(conj: Option<Conj>, f: Factor): Conj {
    if conj.None? then One(f) else More(conj.value, f)
  }

  function AddConj(ors: Option<Disj>, c: Conj): Disj {
    if ors.None? then Single(c) else Alt(ors.value, c)
  }

  /** An operand arrives. */
  function Operand(f: Frame, p: Prim): Frame {
    Frame(f.ors, Some(AddFactor(f.conj, Factor(f.bangs, p))), 0)
  }

  /** A `|` arrives after an operand. */
  function Alternative(f: Frame): Frame
    requires f.conj.Some?
  {
    Frame(Some(AddConj(f.ors, f.conj.value)), None, 0)
  }

  /** The group ends after an operand. */
  function Complete(f: Frame): Disj
    requires f.conj.Some?
  {
    AddConj(f.ors, f.conj.value)
  }

  /** The tokens of a frame; `waiting` says that an operand must follow. */
  function FrameYield(f: Frame, waiting: bool): seq<Token> {
    (if f.ors.None? then [] else YieldDisj(f.ors.value) + [BAR])
    + (if f.conj.None? then [] else YieldConj(f.conj.value))
    + (if f.conj.Some? && waiting then [AMP] else [])
    + Copies(f.bangs, BANG)
  }

  /** The nodes emitted for a frame so far. */
  function FrameOut(f: Frame): seq<Node> {
    (if f.ors.None? then [] else Postfix(ExprDisj(f.ors.value)))
    + (if f.conj.None? then [] else Postfix(ExprConj(f.conj.value)))
  }

  /** The operator stack of a frame: at most one `|`, then at most one `&`, then only `!`. */
  function FrameStack(f: Frame, waiting: bool): string {
    (if f.ors.None? then [] else ['|'])
    + (if f.conj.Some? && waiting then ['&'] else [])
    + Copies(f.bangs, '!')
  }

  lemma {:induction false} NegatePostfix(n: nat, e: Expr)
    ensures Postfix(Negate(n, e)) == Postfix(e) + Copies(n, NOpr('!'))
  {
    if n > 0 {
      NegatePostfix(n - 1, e);
    }
  }

  lemma {:induction false} OperandYield(f: Frame, p: Prim)
    ensures FrameYield(Operand(f, p), false) == FrameYield(f, true) + YieldPrim(p)
  {
    hide YieldPrim, YieldDisj;
    var ys := if f.ors.None? then [] else YieldDisj(f.ors.value) + [BAR];
    var factor := Factor(f.bangs, p);
    if f.conj.None? {
      assert FrameYield(Operand(f, p), false) == ys + YieldFactor(factor);
      assert FrameYield(f, true) == ys + Copies(f.bangs, BANG);
    } else {
      var c := YieldConj(f.conj.value);
      assert FrameYield(Operand(f, p), false) == ys + (c + [AMP] + YieldFactor(factor));
      assert FrameYield(f, true) == ys + c + [AMP] + Copies(f.bangs, BANG);
    }
  }

  /** What leaves the stack after an operand: the negations, then a waiting `&`. */
  function Released(f: Frame): seq<Node> {
    Copies(f.bangs, NOpr('!')) + (if f.conj.Some? then [NOpr('&')] else [])
  }

  lemma {:induction false} AddFactorOut(conj: Option<Conj>, x: Factor)
    ensures Postfix(ExprConj(AddFactor(conj, x)))
         == (if conj.None? then [] else Postfix(ExprConj(conj.value))) + Postfix(ExprFactor(x))
            + (if conj.Some? then [NOpr('&')] else [])
  {
    hide ExprFactor;
    if conj.Some? {
      assert ExprConj(More(conj.value, x)) == Bin(And, ExprConj(conj.value), ExprFactor(x));
    }
  }

  lemma {:induction false} OperandOut(f: Frame, p: Prim)
    ensures FrameOut(Operand(f, p)) == FrameOut(f) + Postfix(ExprPrim(p)) + Released(f)
  {
    hide ExprPrim, ExprDisj, ExprConj, Postfix;
    NegatePostfix(f.bangs, ExprPrim(p));
    AddFactorOut(f.conj, Factor(f.bangs, p));
  }

  /** A `|` closes the previous alternative when there is one. */
  lemma {:induction false} AlternativeSteps(f: Frame)
    requires f.conj.Some? && f.bangs == 0
    ensures FrameYield(Alternative(f), true) == FrameYield(f, false) + [BAR]
    ensures FrameOut(Alternative(f)) == FrameOut(f) + (if f.ors.Some? then [NOpr('|')] else [])
  {
    hide YieldConj, ExprConj;
    if f.ors.Some? {
      var d, c := YieldDisj(f.ors.value), YieldConj(f.conj.value);
      assert FrameYield(f, false) == d + [BAR] + c;
      assert FrameYield(Alternative(f), true) == d + [BAR] + c + [BAR];
      assert FrameOut(Alternative(f))
          == Postfix(ExprDisj(f.ors.value)) + Postfix(ExprConj(f.conj.value)) + [NOpr('|')];
    }
  }

  lemma {:induction false} CompleteSteps(f: Frame)
    requires f.conj.Some? && f.bangs == 0
    ensures FrameYield(f, false) == YieldDisj(Complete(f))
    ensures Postfix(ExprDisj(Complete(f))) == FrameOut(f) + (if f.ors.Some? then [NOpr('|')] else [])
  {
    hide YieldConj, ExprConj;
  }

  lemma {:induction false} AmpSteps(f: Frame)
    requires f.conj.Some? && f.bangs == 0
    ensures FrameYield(f, true) == FrameYield(f, false) + [AMP]
    ensures FrameStack(f, true) == FrameStack(f, false) + ['&']
  {
  }

  lemma {:induction false} BangSteps(f: Frame)
    ensures var g := f.(bangs := f.bangs + 1);
      && FrameYield(g, true) == FrameYield(f, true) + [BANG]
      && FrameStack(g, true) == FrameStack(f, true) + ['!']
      && FrameOut(g) == FrameOut(f)
  {
    hide YieldConj, YieldDisj;
    var ys := (if f.ors.None? then [] else YieldDisj(f.ors.value) + [BAR])
      + (if f.conj.None? then [] else YieldConj(f.conj.value))
      + (if f.conj.Some? then [AMP] else []);
    assert FrameYield(f, true) == ys + Copies(f.bangs, BANG);
    assert FrameYield(f.(bangs := f.bangs + 1), true) == ys + (Copies(f.bangs, BANG) + [BANG]);
  }

  // ----- the grammar is unambiguous -----

  /** One token of a deterministic reader that keeps a stack of frames. */
  function Shift(fs: seq<Frame>, t: Token): seq<Frame> {
    if fs == [] then fs
    else
      var rest, top := fs[..|fs| - 1], fs[|fs| - 1];
      if t == BANG then rest + [top.(bangs := top.bangs + 1)]
      else if t == BAR && top.conj.Some? then rest + [Alternative(top)]
      else match t
        case TVal(v) => rest + [Operand(top, Num(v))]
        case TOpen => fs + [EMPTY]
        case TClose =>
          if rest == [] || top.conj.None? then fs
          else rest[..|rest| - 1] + [Operand(rest[|rest| - 1], Group(Complete(top)))]
        case _ => fs
  }

  function ShiftAll(fs: seq<Frame>, ts: seq<Token>): seq<Frame> {
    if ts == [] then fs else Shift(ShiftAll(fs, ts[..|ts| - 1]), ts[|ts| - 1])
  }

  lemma {:induction false} ShiftConcat(fs: seq<Frame>, a: seq<Token>, b: seq<Token>)
    ensures ShiftAll(fs, a + b) == ShiftAll(ShiftAll(fs, a), b)
    decreases |b|
  {
    if b == [] {
      assert a + b == a;
    } else {
      assert (a + b)[..|a + b| - 1] == a + b[..|b| - 1];
      ShiftConcat(fs, a, b[..|b| - 1]);
    }
  }

  lemma {:induction false} ShiftOne(fs: seq<Frame>, t: Token)
    ensures ShiftAll(fs, [t]) == Shift(fs, t)
  {
    assert [t][..0] == [];
  }

  lemma {:induction false} ShiftBangs(fs: seq<Frame>, f: Frame, n: nat)
    ensures ShiftAll(fs + [f], Copies(n, BANG)) == fs + [f.(bangs := f.bangs + n)]
  {
    hide ShiftAll, Shift;
    if n == 0 {
      ShiftNone(fs + [f]);
    } else {
      var g := f.(bangs := f.bangs + (n - 1));
      ShiftBangs(fs, f, n - 1);
      ShiftConcat(fs + [f], Copies(n - 1, BANG), [BANG]);
      ShiftOne(fs + [g], BANG);
      ShiftBang(fs, g);
    }
  }

  lemma {:induction false} ShiftNone(fs: seq<Frame>)
    ensures ShiftAll(fs, []) == fs
  {
  }

  lemma {:induction false} ShiftBang(fs: seq<Frame>, f: Frame)
    ensures Shift(fs + [f], BANG) == fs + [f.(bangs := f.bangs + 1)]
  {
    assert (fs + [f])[..|fs|] == fs;
  }

  lemma {:induction false} ShiftPrim(fs: seq<Frame>, f: Frame, p: Prim)
    ensures ShiftAll(fs + [f], YieldPrim(p)) == fs + [Operand(f, p)]
    decreases p
  {
    match p
    case Num(v) =>
      ShiftOne(fs + [f], TVal(v));
    case Group(d) =>
      var open := fs + [f];
      ShiftConcat(open, [TOpen] + YieldDisj(d), [TClose]);
      ShiftConcat(open, [TOpen], YieldDisj(d));
      ShiftOne(open, TOpen);
      ShiftDisj(open, d);
      var g := FrameOf(d);
      ShiftOne(open + [g], TClose);
      assert (open + [g])[..|open|] == open;
  }

  lemma {:induction false} ShiftFactor(fs: seq<Frame>, f: Frame, x: Factor)
    requires f.bangs == 0
    ensures ShiftAll(fs + [f], YieldFactor(x)) == fs + [Frame(f.ors, Some(AddFactor(f.conj, x)), 0)]
    decreases x
  {
    ShiftConcat(fs + [f], Copies(x.bangs, BANG), YieldPrim(x.prim));
    ShiftBangs(fs, f, x.bangs);
    ShiftPrim(fs, f.(bangs := x.bangs), x.prim);
  }

  lemma {:induction false} ShiftConj(fs: seq<Frame>, ors: Option<Disj>, c: Conj)
    ensures ShiftAll(fs + [Frame(ors, None, 0)], YieldConj(c)) == fs + [Frame(ors, Some(c), 0)]
    decreases c
  {
    var start := fs + [Frame(ors, None, 0)];
    match c
    case One(x) => ShiftFactor(fs, Frame(ors, None, 0), x);
    case More(c', x) =>
      ShiftConcat(start, YieldConj(c') + [AMP], YieldFactor(x));
      ShiftConcat(start, YieldConj(c'), [AMP]);
      ShiftConj(fs, ors, c');
      ShiftOne(fs + [Frame(ors, Some(c'), 0)], AMP);
      ShiftFactor(fs, Frame(ors, Some(c'), 0), x);
  }

  /** The frame that a whole disjunction leaves. */
  function FrameOf(d: Disj): Frame {
    match d
    case Single(c) => Frame(None, Some(c), 0)
    case Alt(d', c) => Frame(Some(d'), Some(c), 0)
  }

  lemma {:induction false} ShiftDisj(fs: seq<Frame>, d: Disj)
    ensures ShiftAll(fs + [EMPTY], YieldDisj(d)) == fs + [FrameOf(d)]
    decreases d
  {
    match d
    case Single(c) => ShiftConj(fs, None, c);
    case Alt(d', c) =>
      var start := fs + [EMPTY];
      ShiftConcat(start, YieldDisj(d') + [BAR], YieldConj(c));
      ShiftConcat(start, YieldDisj(d'), [BAR]);
      ShiftDisj(fs, d');
      var g := FrameOf(d');
      ShiftOne(fs + [g], BAR);
      assert (fs + [g])[..|fs|] == fs;
      ShiftConj(fs, Some(d'), c);
  }

  /** A token sequence has at most one parse tree. */
  lemma {:induction false} Unambiguous(d: Disj, d': Disj)
    requires YieldDisj(d) == YieldDisj(d')
    ensures d == d'
  {
    ShiftDisj([], d);
    ShiftDisj([], d');
    assert ([] + [FrameOf(d)])[0] == ([] + [FrameOf(d')])[0];
  }
}
