/**
 Printing a boolean query (contrib/intarray/_int_bool.c: infix, bqarr_out).
 */
module IntQueryPrint {
  import opened Wrappers
  import opened Buffers
  import opened IntQuery
  import opened IntQueryLex
  import opened IntQueryGrammar
  import opened IntQueryParse
  import opened IntQueryInput

  // ----- the printed text -----

  function Digit(d: nat): (c: char)
    requires d < 10
    ensures IsDigit(c) && DigitVal(c) == d
  {
    ('0' as int + d) as char
  }

  function DecimalNat(n: nat): (s: string)
    ensures |s| >= 1
  {
    if n < 10 then [Digit(n)] else DecimalNat(n / 10) + [Digit(n % 10)]
  }

  /** What "%d" prints. */
  function Decimal(v: int32): (s: string)
    ensures |s| >= 1
  {
    if v < 0 then ['-'] + DecimalNat(-(v as int)) else DecimalNat(v)
  }

  /** The infix text: a negated operator goes in parentheses, and so does a `|` that is
      not the outermost operator. */
  function Render(e: Expr, first: bool): string {
    match e
    case Val(v) => Decimal(v)
    case Not(x) => if x.Val? then "!" + Render(x, false) else "!" + Parens(Render(x, true))
    case Bin(op, l, r) =>
      var body := Render(l, false) + [' ', op.Sign(), ' '] + Render(r, false);
      if op.Or? && !first then Parens(body) else body
  }

  function Parens(s: string): string {
    "( " + s + " )"
  }

  lemma {:induction false} InParens(start: string, inner: string)
    ensures start + "!" + "( " + inner + " )" == start + ("!" + Parens(inner))
  {
  }

  lemma {:induction false} RenderNot(e: Expr, first: bool)
    requires e.Not?
    ensures var inner := Render(e.e, !e.e.Val?);
            Render(e, first) == if e.e.Val? then "!" + inner else "!" + Parens(inner)
  {
  }

  /** The operand of a negation stands right before it. */
  lemma {:induction false} NotParts(items: seq<Item>, lo: nat, e: Expr)
    requires e.Not? && NodesAt(items, lo, Postfix(e))
    ensures Size(e) == Size(e.e) + 1 && NodesAt(items, lo, Postfix(e.e)) && 1 <= Size(e.e)
    ensures lo + Size(e.e) - 1 < |items| && items[lo + Size(e.e) - 1].node.NOpr? == !e.e.Val?
  {
    RootNode(items, lo, e);
    NodesParts(items, lo, Postfix(e.e), [], NOpr('!'));
    RootNode(items, lo, e.e);
  }

  // ----- the buffer -----

  /** The largest size of an output buffer, which starts at 16 or 32 bytes and doubles. */
  const TEXT_SIZE: nat := 0x2000_0000

  lemma {:induction false} TextSizes()
    ensures Doubles(16, 16) && Doubles(32, 16) && Doubles(TEXT_SIZE, 16)
    ensures TEXT_SIZE <= MAX_ALLOC < 2 * TEXT_SIZE
  {
    assert Doubles(16, 16) && Doubles(32, 16);
    hide Doubles;
    Sixteenfold(0x20, 16);
    Sixteenfold(0x200, 16);
    Sixteenfold(0x2000, 16);
    Sixteenfold(0x2_0000, 16);
    Sixteenfold(0x20_0000, 16);
    Sixteenfold(0x200_0000, 16);
  }

  function MaxOf(a: nat, b: nat): nat {
    if a < b then b else a
  }

  /** The most bytes requested of the buffer an expression is printed into: those of its text, or
      eleven for the number that comes first. */
  function Need(e: Expr, first: bool): nat {
    match e
    case Val(_) => 11
    case Not(x) =>
      if x.Val? then 1 + Need(x, false) else MaxOf(3 + Need(x, true), |Render(e, first)|)
    case Bin(op, l, _) =>
      MaxOf((if op.Or? && !first then 2 else 0) + Need(l, false), |Render(e, first)|)
  }

  /** Every right operand fits a buffer of its own. */
  predicate RightsFit(e: Expr) {
    match e
    case Val(_) => true
    case Not(x) => RightsFit(x)
    case Bin(_, l, r) => RightsFit(l) && RightsFit(r) && Need(r, false) + 1 < TEXT_SIZE
  }

  /** Printing after len bytes succeeds. */
  predicate PrintFits(e: Expr, first: bool, len: nat) {
    len + Need(e, first) + 1 < TEXT_SIZE && RightsFit(e)
  }

  lemma {:induction false} NeedNot(e: Expr, first: bool)
    requires e.Not?
    ensures RightsFit(e) == RightsFit(e.e)
    ensures Need(e, first) == if e.e.Val? then 1 + Need(e.e, false)
                              else MaxOf(3 + Need(e.e, true), |Render(e.e, true)| + 5)
  {
  }

  lemma {:induction false} NeedBin(e: Expr, first: bool)
    requires e.Bin?
    ensures RightsFit(e) == (RightsFit(e.l) && RightsFit(e.r) && Need(e.r, false) + 1 < TEXT_SIZE)
    ensures var p := if e.op.Or? && !first then 2 else 0;
            Need(e, first) ==
            MaxOf(p + Need(e.l, false), 2 * p + |Render(e.l, false)| + 3 + |Render(e.r, false)|)
  {
  }

  /** The requests exceed the length of the text for short texts only: what a number may need
      beyond its digits is soon made up by parentheses and operators. */
  lemma {:induction false} NeedClose(e: Expr, first: bool)
    ensures |Render(e, first)| <= Need(e, first)
    ensures Need(e, first) == |Render(e, first)| || 3 * Need(e, first) <= 32 + 2 * |Render(e, first)|
  {
    match e
    case Val(v) => DecimalWidth(v);
    case Not(x) =>
      NeedClose(x, !x.Val?);
      RenderNot(e, first);
      NeedNot(e, first);
    case Bin(_, l, r) =>
      NeedClose(l, false);
      RenderSome(r, false);
      NeedBin(e, first);
  }

  lemma {:induction false} RenderSome(e: Expr, first: bool)
    ensures |Render(e, first)| >= 1
  {
    if e.Bin? {
      RenderSome(e.l, false);
    }
  }

  lemma {:induction false} RightsClose(e: Expr, first: bool)
    requires |Render(e, first)| + 1 < TEXT_SIZE
    ensures RightsFit(e)
  {
    match e
    case Val(_) =>
    case Not(x) => RightsClose(x, !x.Val?);
    case Bin(_, l, r) =>
      RightsClose(l, false);
      RightsClose(r, false);
      NeedClose(r, false);
  }

  /** A query prints if and only if its text and the final zero are shorter than 2^29 bytes. */
  lemma {:induction false} PrintFitsIff(e: Expr)
    ensures PrintFits(e, true, 0) <==> |Render(e, true)| + 1 < TEXT_SIZE
  {
    NeedClose(e, true);
    if |Render(e, true)| + 1 < TEXT_SIZE {
      RightsClose(e, true);
    }
  }

  /** INFIX: a cursor that walks the items from right to left, the text written so far and the
      size of its buffer. */
  class Infix {
    const items: seq<Item>
    var curpol: int
    var buf: string
    var buflen: nat

    ghost predicate Room()
      reads this`buf, this`buflen
    {
      Doubles(buflen, 16) && buflen <= TEXT_SIZE && |buf| < buflen
    }

    constructor (items: seq<Item>, curpol: int, buflen: nat)
      requires buflen == 16 || buflen == 32
      ensures this.items == items && this.curpol == curpol && buf == "" && Room()
    {
      this.items := items;
      this.curpol := curpol;
      this.buflen := buflen;
      buf := "";
      TextSizes();
    }

    /** RESIZEBUF for the given number of bytes, then the text. */
    method Write(s: string, add: nat) returns (ok: bool)
      requires Room() && |s| <= add
      modifies this`buf, this`buflen
      ensures ok <==> |old(buf)| + add + 1 < TEXT_SIZE
      ensures ok ==> Room() && buf == old(buf) + s
    {
      hide Doubles;
      TextSizes();
      while |buf| + add + 1 >= buflen
        invariant buf == old(buf) && Room()
        decreases TEXT_SIZE - buflen
      {
        GrowsIffBelow(buflen, 16, TEXT_SIZE, 1);
        if 2 * buflen > MAX_ALLOC {
          return false;
        }
        buflen := 2 * buflen;
      }
      buf := buf + s;
      ok := true;
    }

    /** infix: the right operand is printed first, into a buffer of its own, because the
        items are met in that order. It fails exactly when a buffer cannot grow. */
    method Print(first: bool, ghost lo: nat, ghost e: Expr) returns (ok: bool)
      requires curpol == lo + Size(e) - 1 && NodesAt(items, lo, Postfix(e)) && Room()
      modifies this
      ensures ok <==> PrintFits(e, first, |old(buf)|)
      ensures ok ==> Room() && curpol == lo - 1 && buf == old(buf) + Render(e, first)
      decreases e
    {
      hide Room;
      RootNode(items, lo, e);
      if items[curpol].node.NVal? {
        DecimalWidth(items[curpol].node.val);
        ok := Write(Decimal(items[curpol].node.val), 11);
        curpol := curpol - 1;
      } else if items[curpol].node.op == '!' {
        ok := PrintNot(lo, e, first);
      } else {
        ok := PrintBinary(first, lo, e);
      }
    }

    method PrintNot(ghost lo: nat, ghost e: Expr, ghost first: bool) returns (ok: bool)
      requires e.Not? && curpol == lo + Size(e) - 1 && NodesAt(items, lo, Postfix(e)) && Room()
      modifies this
      ensures ok <==> PrintFits(e, first, |old(buf)|)
      ensures ok ==> Room() && curpol == lo - 1 && buf == old(buf) + Render(e, first)
      decreases e, 0
    {
      hide Postfix, Render, NodesAt, Size, Parens, Need, RightsFit, Room;
      NotParts(items, lo, e);
      RenderNot(e, first);
      NeedNot(e, first);
      NeedClose(e.e, !e.e.Val?);
      ghost var inner := Render(e.e, !e.e.Val?);
      ghost var start := buf;
      ok := Write("!", 1);
      if !ok {
        return;
      }
      curpol := curpol - 1;
      var isopr := items[curpol].node.NOpr?;
      if isopr {
        ok := Write("( ", 2);
        if !ok {
          return;
        }
      }
      ok := Print(isopr, lo, e.e);
      if !ok {
        return;
      }
      if isopr {
        InParens(start, inner);
        ok := Write(" )", 2);
      } else {
        assert start + "!" + inner == start + ("!" + inner);
      }
    }

    method PrintBinary(first: bool, ghost lo: nat, ghost e: Expr) returns (ok: bool)
      requires e.Bin? && curpol == lo + Size(e) - 1 && NodesAt(items, lo, Postfix(e)) && Room()
      modifies this
      ensures ok <==> PrintFits(e, first, |old(buf)|)
      ensures ok ==> Room() && curpol == lo - 1 && buf == old(buf) + Render(e, first)
      decreases e, 1
    {
      hide Postfix, Render, NodesAt, Need, RightsFit, Room, Size;
      BinNode(items, lo, e);
      NeedBin(e, first);
      RenderBin(e, first, buf);
      var op := items[curpol].node.op;
      var parens := op == '|' && !first;
      if parens {
        ok := Write("( ", 2);
        if !ok {
          return;
        }
      }
      ok := PrintOperands(op, lo, e);
      if ok && parens {
        ok := Write(" )", 2);
      }
    }

    /** The right operand into a buffer of its own, the left one, the operator and the right one. */
    method PrintOperands(op: char, ghost lo: nat, ghost e: Expr) returns (ok: bool)
      requires e.Bin? && op == e.op.Sign() && curpol == lo + Size(e) - 1 && NodesAt(items, lo, Postfix(e)) && Room()
      modifies this
      ensures ok <==> RightsFit(e) && |old(buf)| + Need(e.l, false) + 1 < TEXT_SIZE &&
                      |old(buf)| + |Render(e.l, false)| + 3 + |Render(e.r, false)| + 1 < TEXT_SIZE
      ensures ok ==> Room() && curpol == lo - 1
      ensures ok ==> buf == old(buf) + (Render(e.l, false) + [' ', op, ' '] + Render(e.r, false))
      decreases e, 0
    {
      hide Postfix, Render, NodesAt, Need, RightsFit, Room, Size;
      BinParts(items, lo, e);
      NeedBin(e, true);
      curpol := curpol - 1;
      var nrm := new Infix(items, curpol, 16);
      ok := nrm.Print(false, lo + Size(e.l), e.r);
      if !ok {
        return;
      }
      assert "" + Render(e.r, false) == Render(e.r, false);
      curpol := nrm.curpol;
      ok := Print(false, lo, e.l);
      if !ok {
        return;
      }
      Spliced(old(buf), Render(e.l, false), [' ', op, ' '], nrm.buf);
      ok := Write([' ', op, ' '] + nrm.buf, 3 + |nrm.buf|);
    }
  }

  lemma {:induction false} Spliced(start: string, l: string, m: string, r: string)
    ensures start + l + (m + r) == start + (l + m + r)
  {
  }

  lemma {:induction false} BinNode(items: seq<Item>, lo: nat, e: Expr)
    requires e.Bin? && NodesAt(items, lo, Postfix(e))
    ensures lo + Size(e) <= |items| && Size(e) >= 1 && items[lo + Size(e) - 1].node == NOpr(e.op.Sign())
  {
    RootNode(items, lo, e);
  }

  /** The operands of a binary operator stand before it, one after the other. */
  lemma {:induction false} BinParts(items: seq<Item>, lo: nat, e: Expr)
    requires e.Bin? && NodesAt(items, lo, Postfix(e))
    ensures Size(e) == Size(e.l) + Size(e.r) + 1
    ensures NodesAt(items, lo, Postfix(e.l)) && NodesAt(items, lo + Size(e.l), Postfix(e.r))
  {
    NodesParts(items, lo, Postfix(e.l), Postfix(e.r), NOpr(e.op.Sign()));
  }

  lemma {:induction false} RenderBin(e: Expr, first: bool, start: string)
    requires e.Bin?
    ensures var body := Render(e.l, false) + [' ', e.op.Sign(), ' '] + Render(e.r, false);
            start + Render(e, first) ==
            if e.op.Or? && !first then start + "( " + body + " )" else start + body
  {
    var body := Render(e.l, false) + [' ', e.op.Sign(), ' '] + Render(e.r, false);
    assert start + Parens(body) == start + "( " + body + " )";
  }

  lemma {:induction false} LinkedNodes(e: Expr)
    ensures NodesAt(Linked(e), 0, Postfix(e))
  {
    match e
    case Val(_) =>
    case Not(x) =>
      LinkedNodes(x);
      assert forall k | 0 <= k < Size(x) :: Linked(x)[0 + k].node == Postfix(x)[k];
    case Bin(op, l, r) =>
      LinkedNodes(l);
      LinkedNodes(r);
      hide Wrap16;
      assert forall k | 0 <= k < Size(l) :: Linked(l)[0 + k].node == Postfix(l)[k];
      assert forall k | 0 <= k < Size(r) :: Linked(r)[0 + k].node == Postfix(r)[k];
  }

  /** bqarr_out: a stored query prints as the text of its expression, unless that does not fit. */
  method PrintQuery(items: seq<Item>, ghost e: Expr) returns (text: Option<string>)
    requires items == Linked(e)
    ensures text == if |Render(e, true)| + 1 < TEXT_SIZE then Some(Render(e, true)) else None
  {
    hide Linked, Postfix, Render, NodesAt;
    LinkedNodes(e);
    PrintFitsIff(e);
    var nrm := new Infix(items, |items| - 1, 32);
    var ok := nrm.Print(true, 0, e);
    if !ok {
      return None;
    }
    assert "" + Render(e, true) == Render(e, true);
    text := Some(nrm.buf);
  }

  // ----- numbers read back -----

  lemma {:induction false} DigitsOnly(n: nat)
    ensures forall k | 0 <= k < |DecimalNat(n)| :: IsDigit(DecimalNat(n)[k])
    ensures DecimalNat(n)[0] == '0' <==> n == 0
  {
    if n >= 10 {
      DigitsOnly(n / 10);
    }
  }

  lemma {:induction false} AccumulateConcat(a: string, b: string, acc: int)
    requires forall k | 0 <= k < |a| :: IsDigit(a[k])
    ensures Accumulate(a + b, 10, acc) == Accumulate(b, 10, Accumulate(a, 10, acc))
    decreases |a|
  {
    if a == [] {
      assert a + b == b;
    } else {
      assert (a + b)[1..] == a[1..] + b;
      AccumulateConcat(a[1..], b, acc * 10 + DigitVal(a[0]));
    }
  }

  lemma {:induction false} AccumulateDecimal(n: nat)
    ensures Accumulate(DecimalNat(n), 10, 0) == n
  {
    if n < 10 {
      assert DecimalNat(n)[1..] == [];
    } else {
      DigitsOnly(n / 10);
      AccumulateDecimal(n / 10);
      AccumulateConcat(DecimalNat(n / 10), [Digit(n % 10)], 0);
      assert [Digit(n % 10)][1..] == [];
    }
  }

  function Pow10(k: nat): nat {
    if k == 0 then 1 else 10 * Pow10(k - 1)
  }

  lemma {:induction false} DecimalLength(n: nat, k: nat)
    requires k >= 1 && n < Pow10(k)
    ensures |DecimalNat(n)| <= k
  {
    if n >= 10 {
      DecimalLength(n / 10, k - 1);
    }
  }

  lemma {:induction false} TenDigits()
    ensures Pow10(10) == 10_000_000_000
  {
    assert Pow10(5) == 100_000;
    assert Pow10(10) == 10 * (10 * (10 * (10 * (10 * Pow10(5)))));
  }

  lemma {:induction false} DecimalWidth(v: int32)
    ensures |Decimal(v)| <= 11
  {
    TenDigits();
    DecimalLength(if v < 0 then -(v as int) else v, 10);
  }

  /** A printed number is read back as itself, although the reader takes a leading zero
      for octal, and it fits the reader's buffer. */
  lemma {:induction false} NumberRoundTrip(v: int32)
    ensures StrToL(Decimal(v)) == v && |Decimal(v)| < NUMBER_BUFFER
  {
    var n: nat := if v < 0 then -(v as int) else v;
    var s := DecimalNat(n);
    TenDigits();
    DecimalLength(n, 10);
    DigitsOnly(n);
    AccumulateDecimal(n);
    if n == 0 {
      assert s[1..] == [];
      assert Accumulate(s, 8, 0) == 0;
    }
    if v < 0 {
      assert Decimal(v)[1..] == s;
    } else {
      assert Decimal(v) == s;
    }
  }

  // ----- the printed text as a parse tree -----

  function Append(c: Conj, c': Conj): Conj {
    match c'
    case One(f) => More(c, f)
    case More(c'', f) => More(Append(c, c''), f)
  }

  function FactorOf(e: Expr): Factor
    requires !(e.Bin? && e.op.And?)
    decreases e, 0
  {
    match e
    case Val(v) => Factor(0, Num(v))
    case Not(x) => if x.Val? then Factor(1, Num(x.v)) else Factor(1, Group(DisjOf(x)))
    case Bin(_, l, r) => Factor(0, Group(Alt(Single(ConjOf(l)), ConjOf(r))))
  }

  /** The tree of an operand. */
  function ConjOf(e: Expr): Conj
    decreases e, 1
  {
    if e.Bin? && e.op.And? then Append(ConjOf(e.l), ConjOf(e.r)) else One(FactorOf(e))
  }

  /** The tree of a whole text. */
  function DisjOf(e: Expr): Disj
    decreases e, 2
  {
    if e.Bin? && e.op.Or? then Alt(Single(ConjOf(e.l)), ConjOf(e.r)) else Single(ConjOf(e))
  }

  function RenderYield(e: Expr, first: bool): seq<Token> {
    if first then YieldDisj(DisjOf(e)) else YieldConj(ConjOf(e))
  }

  lemma {:induction false} AppendYield(c: Conj, c': Conj)
    ensures YieldConj(Append(c, c')) == YieldConj(c) + [AMP] + YieldConj(c')
  {
    if c'.More? {
      AppendYield(c, c'.c);
      hide YieldFactor;
      assert YieldConj(Append(c, c')) == (YieldConj(c) + [AMP] + YieldConj(c'.c)) + [AMP] + YieldFactor(c'.f);
    }
  }

  lemma {:induction false} YieldOfFactor(f: Factor)
    ensures YieldDisj(Single(One(f))) == YieldConj(One(f)) == YieldFactor(f)
  {
  }

  lemma {:induction false} YieldOfVal(v: int32, first: bool)
    ensures RenderYield(Val(v), first) == [TVal(v)]
  {
    var e := Val(v);
    assert DisjOf(e) == Single(ConjOf(e)) && ConjOf(e) == One(Factor(0, Num(v)));
    YieldOfFactor(Factor(0, Num(v)));
    assert YieldFactor(Factor(0, Num(v))) == [] + [TVal(v)];
  }

  lemma {:induction false} YieldOfNot(x: Expr, first: bool)
    ensures x.Val? ==> RenderYield(Not(x), first) == [BANG] + [TVal(x.v)]
    ensures !x.Val? ==> RenderYield(Not(x), first) == [BANG] + ([TOpen] + RenderYield(x, true) + [TClose])
  {
    var e := Not(x);
    assert DisjOf(e) == Single(ConjOf(e)) && ConjOf(e) == One(FactorOf(e));
    assert Copies(1, BANG) == [BANG] by { assert Copies(0, BANG) + [BANG] == [BANG]; }
    YieldOfFactor(FactorOf(e));
    if x.Val? {
      assert YieldFactor(FactorOf(e)) == [BANG] + [TVal(x.v)];
    } else {
      assert YieldFactor(FactorOf(e)) == [BANG] + YieldPrim(Group(DisjOf(x)));
    }
  }

  lemma {:induction false} YieldOfBin(op: BinOp, l: Expr, r: Expr, first: bool)
    ensures var body := RenderYield(l, false) + [TOpr(op.Sign())] + RenderYield(r, false);
      RenderYield(Bin(op, l, r), first) == if op.Or? && !first then [TOpen] + body + [TClose] else body
  {
    var e := Bin(op, l, r);
    if op.And? {
      AppendYield(ConjOf(l), ConjOf(r));
      assert DisjOf(e) == Single(ConjOf(e)) && ConjOf(e) == Append(ConjOf(l), ConjOf(r));
    } else {
      var d := Alt(Single(ConjOf(l)), ConjOf(r));
      assert YieldDisj(d) == YieldConj(ConjOf(l)) + [BAR] + YieldConj(ConjOf(r));
      if first {
        assert DisjOf(e) == d;
      } else {
        assert ConjOf(e) == One(Factor(0, Group(d)));
        assert YieldFactor(Factor(0, Group(d))) == [] + YieldPrim(Group(d));
      }
    }
  }
}
