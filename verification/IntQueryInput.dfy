/**
 Reading a boolean query (contrib/intarray/_int_bool.c: findoprnd, bqarr_in): from text
 to stored items.
 */
module IntQueryInput {
  import opened IntQuery
  import opened IntQueryLex
  import opened IntQueryGrammar
  import opened IntQueryParse

  /** QUERYTYPEMAXITEMS: eight bytes an item, below the allocation limit. */
  const MAX_ITEMS: nat := (0x3fff_ffff - 8) / 8

  /** The items from lo on carry these nodes, whatever their links. */
  ghost predicate NodesAt(items: seq<Item>, lo: nat, ns: seq<Node>) {
    lo + |ns| <= |items| && forall k {:trigger ns[k]} | 0 <= k < |ns| :: items[lo + k].node == ns[k]
  }

  lemma {:induction false} NodesParts(items: seq<Item>, lo: nat, a: seq<Node>, b: seq<Node>, last: Node)
    requires NodesAt(items, lo, a + b + [last])
    ensures NodesAt(items, lo, a) && NodesAt(items, lo + |a|, b) && items[lo + |a| + |b|].node == last
  {
    var s := a + b + [last];
    assert forall k | 0 <= k < |a| :: s[k] == a[k];
    assert forall k | 0 <= k < |b| :: s[|a| + k] == b[k];
    assert s[|a| + |b|] == last;
  }

  lemma {:induction false} HoldsJoin(items: seq<Item>, lo: nat, a: seq<Item>, b: seq<Item>, last: Item)
    requires HoldsAt(items, lo, a) && HoldsAt(items, lo + |a|, b)
    requires lo + |a| + |b| < |items| && items[lo + |a| + |b|] == last
    ensures HoldsAt(items, lo, a + b + [last])
  {
    var s := a + b + [last];
    forall k {:trigger s[k]} | 0 <= k < |s|
      ensures items[lo + k] == s[k]
    {
      if |a| <= k < |a| + |b| {
        assert s[k] == b[k - |a|];
      }
    }
  }

  /** The array is unchanged outside [lo, hi). */
  twostate predicate OnlyWithin(ptr: array<Item>, lo: int, hi: int)
    reads ptr
  {
    forall i | 0 <= i < ptr.Length && !(lo <= i < hi) :: ptr[i] == old(ptr[i])
  }

  /** findoprnd: walks the postfix items from right to left and stores each link. */
  method FindOprnd(ptr: array<Item>, pos: int, ghost lo: nat, ghost e: Expr) returns (pos': int)
    requires lo + Size(e) - 1 == pos < ptr.Length
    requires NodesAt(ptr[..], lo, Postfix(e))
    modifies ptr
    ensures pos' == lo - 1
    ensures HoldsAt(ptr[..], lo, Linked(e))
    ensures OnlyWithin(ptr, lo, pos + 1)
    decreases e
  {
    ghost var items := ptr[..];
    if ptr[pos].node.NVal? {
      assert e.Val? by {
        RootNode(items, lo, e);
      }
      assert items[lo + 0].node == Postfix(e)[0];
      ptr[pos] := ptr[pos].(left := 0);
      pos' := pos - 1;
    } else if ptr[pos].node.op == '!' {
      RootNode(items, lo, e);
      ghost var x := e.e;
      NodesParts(items, lo, Postfix(x), [], NOpr('!'));
      ptr[pos] := ptr[pos].(left := -1);
      pos' := FindOprnd(ptr, pos - 1, lo, x);
      HoldsJoin(ptr[..], lo, Linked(x), [], Item(NOpr('!'), -1));
      assert Linked(x) + [] + [Item(NOpr('!'), -1)] == Linked(e);
    } else {
      RootNode(items, lo, e);
      pos' := LinkBinary(ptr, pos, lo, e);
    }
  }

  /** The binary case: the right operand first, then the link, then the left operand. */
  method LinkBinary(ptr: array<Item>, pos: int, ghost lo: nat, ghost e: Expr) returns (pos': int)
    requires lo + Size(e) - 1 == pos < ptr.Length && e.Bin?
    requires NodesAt(ptr[..], lo, Postfix(e))
    modifies ptr
    ensures pos' == lo - 1
    ensures HoldsAt(ptr[..], lo, Linked(e))
    ensures OnlyWithin(ptr, lo, pos + 1)
    decreases e, 0
  {
    hide Wrap16, Postfix, Linked, Size, NodesAt, HoldsAt;
    ghost var Bin(op, l, r) := e;
    ghost var mid := lo + Size(l);
    BinaryParts(ptr[..], lo, e);
    ghost var start := ptr[..];
    pos' := FindOprnd(ptr, pos - 1, mid, r);
    ghost var right := ptr[..];
    SameNodes(start, right, lo, Postfix(l));
    ptr[pos] := ptr[pos].(left := Wrap16(pos' - pos));
    SameNodes(right, ptr[..], lo, Postfix(l));
    pos' := FindOprnd(ptr, pos', lo, l);
    SameHeld(right, ptr[..], mid, Linked(r));
    BinaryJoin(ptr[..], lo, e);
  }

  /** What a binary operator's items consist of. */
  lemma {:induction false} BinaryParts(items: seq<Item>, lo: nat, e: Expr)
    requires e.Bin? && NodesAt(items, lo, Postfix(e))
    ensures Size(e) == Size(e.l) + Size(e.r) + 1 && |Postfix(e.l)| == Size(e.l) && |Linked(e.r)| == Size(e.r)
    ensures NodesAt(items, lo, Postfix(e.l)) && NodesAt(items, lo + Size(e.l), Postfix(e.r))
    ensures lo + Size(e) - 1 < |items| && items[lo + Size(e) - 1].node == NOpr(e.op.Sign())
    ensures 1 <= Size(e.l) && 1 <= Size(e.r)
  {
    NodesParts(items, lo, Postfix(e.l), Postfix(e.r), NOpr(e.op.Sign()));
  }

  lemma {:induction false} SameNodes(was: seq<Item>, now: seq<Item>, lo: nat, nodes: seq<Node>)
    requires NodesAt(was, lo, nodes) && |now| == |was|
    requires forall k | lo <= k < lo + |nodes| && k < |was| :: now[k] == was[k]
    ensures NodesAt(now, lo, nodes)
  {
  }

  lemma {:induction false} SameHeld(was: seq<Item>, now: seq<Item>, lo: nat, items: seq<Item>)
    requires HoldsAt(was, lo, items) && |now| == |was|
    requires forall k | lo <= k < lo + |items| && k < |was| :: now[k] == was[k]
    ensures HoldsAt(now, lo, items)
  {
  }

  lemma {:induction false} BinaryJoin(items: seq<Item>, lo: nat, e: Expr)
    requires e.Bin? && HoldsAt(items, lo, Linked(e.l)) && HoldsAt(items, lo + Size(e.l), Linked(e.r))
    requires lo + Size(e) - 1 < |items|
    requires items[lo + Size(e) - 1] == Item(NOpr(e.op.Sign()), Wrap16(-(Size(e.r) + 1)))
    ensures HoldsAt(items, lo, Linked(e))
  {
    hide Wrap16;
    HoldsJoin(items, lo, Linked(e.l), Linked(e.r), Item(NOpr(e.op.Sign()), Wrap16(-(Size(e.r) + 1))));
  }

  lemma {:induction false} RootNode(items: seq<Item>, lo: nat, e: Expr)
    requires NodesAt(items, lo, Postfix(e))
    ensures match e
      case Val(v) => items[lo + Size(e) - 1].node == NVal(v)
      case Not(x) => items[lo + Size(e) - 1].node == NOpr('!') && Postfix(e) == Postfix(x) + [] + [NOpr('!')]
      case Bin(op, _, _) => items[lo + Size(e) - 1].node == NOpr(op.Sign())
  {
    assert items[lo + (Size(e) - 1)].node == Postfix(e)[Size(e) - 1];
  }

  // ----- bqarr_in -----

  datatype Input = Query(items: seq<Item>) | SyntaxProblem | ComplexProblem | EmptyProblem | SizeProblem

  function TextTokens(text: string): seq<Token> {
    Tokens(text, 0, WaitOperand, 0)
  }

  /** The text is a spelling of the parse tree d. */
  predicate Spells(text: string, d: Disj) {
    TextTokens(text) == YieldDisj(d) + [TEnd]
  }

  /** A text spells at most one parse tree. */
  lemma {:induction false} SpellsOne(text: string, d: Disj, d': Disj)
    requires Spells(text, d) && Spells(text, d')
    ensures d == d'
  {
    hide YieldDisj, Tokens;
    assert (YieldDisj(d) + [TEnd])[..|YieldDisj(d)|] == YieldDisj(d);
    assert (YieldDisj(d') + [TEnd])[..|YieldDisj(d')|] == YieldDisj(d');
    Unambiguous(d, d');
  }

  /** What became of a text that neither overflows the stack nor contains an error. */
  ghost predicate Accepts(text: string, r: Input) {
    exists d :: Spells(text, d) &&
      r == if Size(ExprDisj(d)) > MAX_ITEMS then SizeProblem else Query(Linked(ExprDisj(d)))
  }

  lemma {:induction false} PrefixOverflows(a: seq<Token>, b: seq<Token>)
    requires a <= b && Overflows(a)
    ensures Overflows(b)
  {
    var i :| 0 <= i < |a| && FullAt(a, i);
    assert b[..i] == a[..i];
    assert FullAt(b, i);
  }

  lemma {:induction false} ReversedAt<T>(s: seq<T>, k: nat)
    requires k < |s|
    ensures |Reversed(s)| == |s| && Reversed(s)[|s| - 1 - k] == s[k]
  {
    if k > 0 {
      ReversedAt(s[1..], k - 1);
    } else if |s| > 1 {
      ReversedAt(s[1..], 0);
    }
  }

  /** The list of emitted nodes, newest first, becomes the item array in emission order. */
  method FillItems(str: seq<Node>) returns (ptr: array<Item>)
    ensures fresh(ptr) && ptr.Length == |str|
    ensures NodesAt(ptr[..], 0, Reversed(str))
  {
    hide Reversed;
    ptr := new Item[|str|](_ => Item(NVal(0), 0));
    var rest := str;
    var i := |str| - 1;
    while i >= 0
      invariant -1 <= i < |str| && |rest| == i + 1 && rest == str[|str| - 1 - i..]
      invariant forall k | i < k < |str| :: ptr[k].node == str[|str| - 1 - k]
    {
      ptr[i] := Item(rest[0], 0);
      rest := rest[1..];
      i := i - 1;
    }
    ReversedNodes(ptr[..], str);
  }

  lemma {:induction false} ReversedNodes(items: seq<Item>, str: seq<Node>)
    requires |items| == |str| && forall k | 0 <= k < |str| :: items[k].node == str[|str| - 1 - k]
    ensures NodesAt(items, 0, Reversed(str))
  {
    hide Reversed;
    ReversedLength(str);
    forall k | 0 <= k < |str|
      ensures items[k].node == Reversed(str)[k]
    {
      ReversedAt(str, |str| - 1 - k);
    }
  }

  /** bqarr_in: a text is refused as too complex exactly when a `!` finds the operator
      stack full, as a syntax error exactly when otherwise the lexer meets an error, and
      every other text spells one parse tree, whose expression is stored. */
  method ReadQuery(text: string) returns (r: Input)
    ensures r.ComplexProblem? <==> Overflows(TextTokens(text))
    ensures r.SyntaxProblem? <==>
              !Overflows(TextTokens(text)) && TextTokens(text)[|TextTokens(text)| - 1] == TErr
    ensures !r.ComplexProblem? && !r.SyntaxProblem? ==> Accepts(text, r)
    ensures !r.EmptyProblem?
  {
    hide Tokens, Overflows, YieldDisj, ExprDisj, Linked, Postfix;
    var p := new Parser(text);
    ghost var ts := TextTokens(text);
    var o; ghost var d;
    o, d := p.MakePol();
    assert OverflowsFrom(0, p.lex.read) == Overflows(p.lex.read) by { OverflowsDef(p.lex.read); }
    if o.TooComplex? {
      PrefixOverflows(p.lex.read, ts);
      return ComplexProblem;
    } else if o.SyntaxError? {
      return SyntaxProblem;
    }
    assert [] + YieldDisj(d) + [TEnd] == YieldDisj(d) + [TEnd];
    assert Spells(text, d);
    assert p.Emitted() == Postfix(ExprDisj(d));
    ReversedLength(p.str);
    if p.num == 0 {
      return EmptyProblem;
    }
    if p.num > MAX_ITEMS {
      return SizeProblem;
    }
    var ptr := FillItems(p.str);
    var _ := FindOprnd(ptr, p.num - 1, 0, ExprDisj(d));
    assert ptr[..] == Linked(ExprDisj(d)) by { HoldsAll(ptr[..], Linked(ExprDisj(d))); }
    r := Query(ptr[..]);
  }

  lemma {:induction false} OverflowsDef(ts: seq<Token>)
    ensures Overflows(ts) == OverflowsFrom(0, ts)
  {
  }

  lemma {:induction false} ReversedLength<T>(s: seq<T>)
    ensures |Reversed(s)| == |s|
  {
    if s != [] {
      ReversedAt(s, 0);
    }
  }

  lemma {:induction false} HoldsAll<T>(s: seq<T>, t: seq<T>)
    requires HoldsAt(s, 0, t) && |s| == |t|
    ensures s == t
  {
    assert forall k | 0 <= k < |s| :: s[0 + k] == t[k];
  }

  /** End to end: a stored query answers, on every array and through the links, the value
      of the one expression its text spells; without negation it over-approximates. */
  lemma {:induction false} StoredQueryMeans(text: string, r: Input, d: Disj, check: nat -> bool, has: int32 -> bool)
    requires Accepts(text, r) && r.Query? && Spells(text, d)
    requires LinksFit(ExprDisj(d)) && Answers(r.items, check, has)
    ensures Reads(r.items, |r.items| - 1, ExprDisj(d))
    ensures Execute(r.items, |r.items| - 1, ExprDisj(d), check, true) == Eval(ExprDisj(d), has)
    ensures Eval(ExprDisj(d), has) ==> Execute(r.items, |r.items| - 1, ExprDisj(d), check, false)
  {
    hide Spells, ExprDisj, Linked, Eval, EvalLossy, Reads;
    var d' :| Spells(text, d') &&
      r == if Size(ExprDisj(d')) > MAX_ITEMS then SizeProblem else Query(Linked(ExprDisj(d')));
    SpellsOne(text, d, d');
    ExecuteStored(ExprDisj(d), check, has);
    if Eval(ExprDisj(d), has) {
      EvalLossyCovers(ExprDisj(d), has, has);
    }
  }
}
